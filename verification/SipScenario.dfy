/** The sequence-diagram layout: columns for endpoints, boxes for messages, colours for Call-IDs. */
module SipScenarios {
  import opened SipMessages
  import opened Decimals

  const IMAGE_BORDER := 20
  const HOST_INIT_W := 80
  const HOST_INIT_H := 20
  const HOST_STEP_W := 150
  const HOST_LINE_OFFSET_W := 54
  const HOST_LINE_TO_MSG_BOX_OFFSET_H := 5
  const MSG_STEP_H := 26

  /** The text that identifies an endpoint. */
  function EndpointKey(e: Endpoint): string { e.address + ":" + IntText(e.port) }

  /** Address and port can be read off the key, even when the address holds colons. */
  lemma KeyInjective(a: Endpoint, b: Endpoint)
    requires EndpointKey(a) == EndpointKey(b)
    ensures a == b
  {
    var k := EndpointKey(a);
    NoColon(a.port);
    NoColon(b.port);
    var m, n := |a.address|, |b.address|;
    assert k[m] == ':' && k[n] == ':';
    assert forall i :: m < i < |k| ==> k[i] == IntText(a.port)[i - m - 1];
    assert forall i :: n < i < |k| ==> k[i] == IntText(b.port)[i - n - 1];
    assert m == n;
    assert a.address == k[..m] == b.address;
    assert IntText(a.port) == k[m + 1..] == IntText(b.port);
    IntTextInjective(a.port, b.port);
  }

  lemma NoColon(n: int)
    ensures ':' !in IntText(n)
  {
    DecimalReads(if n < 0 then -n else n);
  }

  // ---------------------------------------------------------------------------------------
  // First appearances
  // ---------------------------------------------------------------------------------------

  /** The distinct elements, in the order of their first appearance. */
  function FirstAppearances(xs: seq<string>): seq<string> {
    if xs == [] then []
    else
      var seen := FirstAppearances(xs[..|xs| - 1]);
      if xs[|xs| - 1] in seen then seen else seen + [xs[|xs| - 1]]
  }

  ghost predicate NoDuplicates(xs: seq<string>) { forall i, j :: 0 <= i < j < |xs| ==> xs[i] != xs[j] }

  /** Position of the first appearance. */
  function FirstIndex(xs: seq<string>, x: string): (i: nat)
    requires x in xs
    ensures i < |xs| && xs[i] == x && x !in xs[..i]
  {
    if xs[0] == x then 0
    else
      assert x in xs[1..];
      var k := FirstIndex(xs[1..], x);
      assert xs[..k + 1] == [xs[0]] + xs[1..][..k];
      1 + k
  }

  /** What `FirstAppearances` means: the same elements, each once, ordered by first appearance. */
  lemma {:induction false} FirstAppearancesOrdered(xs: seq<string>)
    ensures NoDuplicates(FirstAppearances(xs))
    ensures forall x :: x in FirstAppearances(xs) <==> x in xs
    ensures forall i, j :: 0 <= i < j < |FirstAppearances(xs)| ==>
              FirstIndex(xs, FirstAppearances(xs)[i]) < FirstIndex(xs, FirstAppearances(xs)[j])
  {
    if xs != [] {
      var front, x := xs[..|xs| - 1], xs[|xs| - 1];
      FirstAppearancesOrdered(front);
      assert xs == front + [x];
      forall y | y in front ensures FirstIndex(xs, y) == FirstIndex(front, y) {
        FirstIndexUnique(xs, y, FirstIndex(front, y));
      }
      if x !in front {
        FirstIndexUnique(xs, x, |front|);
      }
    }
  }

  lemma FirstIndexUnique(xs: seq<string>, x: string, i: nat)
    requires i < |xs| && xs[i] == x && x !in xs[..i]
    ensures FirstIndex(xs, x) == i
  {}

  lemma FirstAppearancesSnoc(xs: seq<string>, x: string)
    ensures FirstAppearances(xs + [x]) ==
            if x in FirstAppearances(xs) then FirstAppearances(xs) else FirstAppearances(xs) + [x]
  {
    assert (xs + [x])[..|xs|] == xs;
  }

  /** Source and destination keys of all messages, in order. */
  function EndpointKeys(ms: seq<Message>): seq<string> {
    if ms == [] then []
    else
      var m := ms[|ms| - 1];
      EndpointKeys(ms[..|ms| - 1]) + [EndpointKey(m.header.src)] + [EndpointKey(m.header.dst)]
  }

  function CallIds(ms: seq<Message>): seq<string> {
    if ms == [] then [] else CallIds(ms[..|ms| - 1]) + [ms[|ms| - 1].CallId()]
  }

  lemma {:induction false} KeysOfMessage(ms: seq<Message>, k: nat)
    requires k < |ms|
    ensures EndpointKey(ms[k].header.src) in EndpointKeys(ms)
    ensures EndpointKey(ms[k].header.dst) in EndpointKeys(ms)
  {
    if k < |ms| - 1 { KeysOfMessage(ms[..|ms| - 1], k); }
  }

  /** The endpoints in the order in which the messages name them, source before destination. */
  lemma {:induction false} EndpointKeysOf(ms: seq<Message>, k: nat)
    requires k < |ms|
    ensures |EndpointKeys(ms)| == 2 * |ms| && |CallIds(ms)| == |ms|
    ensures EndpointKeys(ms)[2 * k] == EndpointKey(ms[k].header.src)
    ensures EndpointKeys(ms)[2 * k + 1] == EndpointKey(ms[k].header.dst)
    ensures CallIds(ms)[k] == ms[k].CallId()
  {
    hide EndpointKey;
    if k < |ms| - 1 {
      EndpointKeysOf(ms[..|ms| - 1], k);
    } else if |ms| > 1 {
      EndpointKeysOf(ms[..|ms| - 1], 0);
    }
  }

  /** The table gives the k-th endpoint to appear the column 134 + 150k, and nothing else. */
  ghost predicate Columns(table: map<string, int>, keys: seq<string>) {
    && |table| == |keys|
    && (forall x :: x in table <==> x in keys)
    && (forall k :: 0 <= k < |keys| ==> table[keys[k]] == 134 + 150 * k)
  }

  /** One drawn message: its two columns, its box, and its colour. */
  datatype Drawn = Drawn(srcX: int, dstX: int, boxX: int, boxY: int, boxWidth: int, boxHeight: int, color: int)

  class SipScenario {
    const colors: seq<int>
    const messages: seq<Message>
    var currColor: int
    var imgWidth: int
    var imgHeight: int
    var sessionColors: map<string, int>
    var hostList: map<string, int>
    ghost var seen: seq<string>       // Call-IDs coloured so far, in order

    ghost predicate Valid()
      reads this
    {
      && colors != []
      && Columns(hostList, FirstAppearances(EndpointKeys(messages)))
      && ColoursValid()
    }

    /** The j-th Call-ID coloured has colour j modulo the palette size. */
    ghost predicate ColoursValid()
      requires colors != []
      reads this
    {
      && NoDuplicates(seen)
      && (forall c :: c in sessionColors <==> c in seen)
      && (forall j :: 0 <= j < |seen| ==> sessionColors[seen[j]] == colors[j % |colors|])
      && 0 <= currColor <= |colors|
      && (if seen == [] then currColor == 0 else currColor == (|seen| - 1) % |colors| + 1)
    }

    constructor (messages: seq<Message>, colors: seq<int>)
      requires colors != []
      ensures Valid() && this.messages == messages && this.colors == colors && seen == []
    {
      this.messages, this.colors := messages, colors;
      currColor, imgWidth, imgHeight, sessionColors, seen := 0, 0, 0, map[], [];
      var table := CreateHostList(messages);
      hostList := table;
    }

    static method CreateHostList(ms: seq<Message>) returns (table: map<string, int>)
      ensures Columns(table, FirstAppearances(EndpointKeys(ms)))
    {
      table := map[];
      var lineWeigh := HOST_INIT_W + HOST_LINE_OFFSET_W;
      for i := 0 to |ms|
        invariant Columns(table, FirstAppearances(EndpointKeys(ms[..i])))
        invariant lineWeigh == HOST_INIT_W + HOST_LINE_OFFSET_W + HOST_STEP_W * |table|
      {
        ghost var keys := EndpointKeys(ms[..i]);
        var src, dst := EndpointKey(ms[i].header.src), EndpointKey(ms[i].header.dst);
        assert ms[..i + 1][..i] == ms[..i];
        FirstAppearancesSnoc(keys, src);
        FirstAppearancesSnoc(keys + [src], dst);
        table, lineWeigh := AddHost(table, lineWeigh, src, FirstAppearances(keys));
        table, lineWeigh := AddHost(table, lineWeigh, dst, FirstAppearances(keys + [src]));
      }
      assert ms[..|ms|] == ms;
    }

    /** Gives an endpoint the next column unless it has one. */
    static method AddHost(table: map<string, int>, lineWeigh: int, key: string, ghost keys: seq<string>)
      returns (table1: map<string, int>, lineWeigh1: int)
      requires Columns(table, keys)
      requires lineWeigh == HOST_INIT_W + HOST_LINE_OFFSET_W + HOST_STEP_W * |table|
      ensures Columns(table1, if key in keys then keys else keys + [key])
      ensures lineWeigh1 == HOST_INIT_W + HOST_LINE_OFFSET_W + HOST_STEP_W * |table1|
    {
      table1, lineWeigh1 := table, lineWeigh;
      if key !in table {
        table1 := table[key := lineWeigh];
        lineWeigh1 := lineWeigh + HOST_STEP_W;
      }
    }

    method GetSessionColor(callId: string) returns (color: int)
      requires colors != [] && ColoursValid()
      modifies this`currColor, this`sessionColors, this`seen
      ensures ColoursValid()
      ensures seen == if callId in old(seen) then old(seen) else old(seen) + [callId]
      ensures Coloured(colors, seen, callId, color)
    {
      hide FirstAppearances, EndpointKeys, Columns;
      if callId in sessionColors {
        color := sessionColors[callId];
        ghost var j :| 0 <= j < |seen| && seen[j] == callId;
      } else {
        NextColour(|seen|, |colors|);
        if currColor == |colors| {
          currColor := 0;
        }
        color := colors[currColor];
        currColor := currColor + 1;
        sessionColors := sessionColors[callId := color];
        seen := seen + [callId];
        assert seen[|seen| - 1] == callId;
      }
    }

    /** The messages of the diagram: every lookup succeeds, arrows end on their endpoints'
        columns, boxes tile downwards inside the image, and colours cycle through the palette
        in the order in which Call-IDs appear. */
    method Create() returns (drawn: seq<Drawn>)
      requires Valid()
      modifies this
      ensures Valid() && hostList == old(hostList)
      ensures messages == [] ==> imgWidth == 400 && imgHeight == 200
      ensures messages != [] ==>
                && imgWidth == 150 * |FirstAppearances(EndpointKeys(messages))| + 80
                && imgHeight == 26 * |messages| + 60
      ensures |drawn| == |messages| && seen == FirstAppearances(old(seen) + CallIds(messages))
      ensures forall k :: 0 <= k < |messages| ==> Placed(drawn[k], messages[k], k, hostList, imgWidth)
      ensures forall k :: 0 <= k < |messages| ==> Coloured(colors, seen, messages[k].CallId(), drawn[k].color)
    {
      hide FirstAppearances, EndpointKeys, CallIds, Placed, Coloured, EndpointKey;
      drawn := [];
      if |messages| == 0 {
        imgWidth, imgHeight := 400, 200;
        NoneSeen(messages, seen);
        assert messages[..0] == messages;
        return;
      }
      imgWidth := HOST_STEP_W * |hostList| + HOST_INIT_W;
      imgHeight := MSG_STEP_H * |messages| + IMAGE_BORDER * 3;
      drawn := DrawMessages();
    }

    method DrawMessages() returns (drawn: seq<Drawn>)
      requires Valid()
      modifies this`currColor, this`sessionColors, this`seen
      ensures Valid() && |drawn| == |messages| && seen == FirstAppearances(old(seen) + CallIds(messages))
      ensures forall k :: 0 <= k < |messages| ==> Placed(drawn[k], messages[k], k, hostList, imgWidth)
      ensures forall k :: 0 <= k < |messages| ==> Coloured(colors, seen, messages[k].CallId(), drawn[k].color)
    {
      hide Columns, Placed, Coloured, EndpointKey, FirstAppearances, EndpointKeys, CallIds;
      NoneSeen(messages, seen);
      drawn := [];
      var h := HOST_INIT_H * 2 + HOST_LINE_TO_MSG_BOX_OFFSET_H;
      var msgBoxWidth := imgWidth - IMAGE_BORDER * 2;
      for i := 0 to |messages|
        invariant Valid()
        invariant h == HOST_INIT_H * 2 + HOST_LINE_TO_MSG_BOX_OFFSET_H + MSG_STEP_H * i
        invariant |drawn| == i && seen == FirstAppearances(old(seen) + CallIds(messages[..i]))
        invariant forall k :: 0 <= k < i ==> Placed(drawn[k], messages[k], k, hostList, imgWidth)
        invariant forall k :: 0 <= k < i ==> Coloured(colors, seen, messages[k].CallId(), drawn[k].color)
      {
        var d := DrawMessage(i, h, msgBoxWidth, old(seen));
        drawn := drawn + [d];
        h := h + MSG_STEP_H;
      }
      assert messages[..|messages|] == messages;
    }

    method DrawMessage(i: nat, h: int, msgBoxWidth: int, ghost earlier: seq<string>) returns (d: Drawn)
      requires Valid() && i < |messages| && seen == FirstAppearances(earlier + CallIds(messages[..i]))
      requires h == HOST_INIT_H * 2 + HOST_LINE_TO_MSG_BOX_OFFSET_H + MSG_STEP_H * i
      requires msgBoxWidth == imgWidth - IMAGE_BORDER * 2
      modifies this`currColor, this`sessionColors, this`seen
      ensures Valid() && seen == FirstAppearances(earlier + CallIds(messages[..i + 1]))
      ensures Placed(d, messages[i], i, hostList, imgWidth)
      ensures Coloured(colors, seen, messages[i].CallId(), d.color)
      ensures forall c, x :: Coloured(colors, old(seen), c, x) ==> Coloured(colors, seen, c, x)
    {
      hide Columns, ColoursValid, EndpointKey, FirstAppearances, EndpointKeys, CallIds;
      var m := messages[i];
      HostsKnown(messages, hostList, i);
      CallIdsSnoc(messages, i);
      assert earlier + CallIds(messages[..i + 1]) == (earlier + CallIds(messages[..i])) + [m.CallId()];
      FirstAppearancesSnoc(earlier + CallIds(messages[..i]), m.CallId());
      ghost var before := seen;
      var srcX, dstX := hostList[EndpointKey(m.header.src)], hostList[EndpointKey(m.header.dst)];
      var color := GetSessionColor(m.CallId());
      d := Drawn(srcX, dstX, IMAGE_BORDER, h - MSG_STEP_H / 2, msgBoxWidth, MSG_STEP_H, color);
      ColoursStay(colors, before, seen);
    }
  }

  /** How the k-th message is placed. */
  ghost predicate Placed(d: Drawn, m: Message, k: int, table: map<string, int>, imgWidth: int) {
    && EndpointKey(m.header.src) in table && d.srcX == table[EndpointKey(m.header.src)]
    && EndpointKey(m.header.dst) in table && d.dstX == table[EndpointKey(m.header.dst)]
    && d.boxX == 20 && d.boxWidth == imgWidth - 40
    && d.boxY == 32 + 26 * k && d.boxHeight == 26
  }

  /** The Call-ID is the j-th to appear, and its colour is colour j modulo the palette size. */
  ghost predicate Coloured(colors: seq<int>, seen: seq<string>, callId: string, color: int)
    requires colors != []
  {
    exists j :: 0 <= j < |seen| && seen[j] == callId && color == colors[j % |colors|]
  }

  lemma ColoursStay(colors: seq<int>, before: seq<string>, seen: seq<string>)
    requires colors != [] && before <= seen
    ensures forall c, x :: Coloured(colors, before, c, x) ==> Coloured(colors, seen, c, x)
  {
    forall c, x | Coloured(colors, before, c, x) ensures Coloured(colors, seen, c, x) {
      var j :| 0 <= j < |before| && before[j] == c && x == colors[j % |colors|];
      assert seen[j] == c;
    }
  }

  lemma NoneSeen(ms: seq<Message>, seen: seq<string>)
    requires NoDuplicates(seen)
    ensures FirstAppearances(seen + CallIds(ms[..0])) == seen
  {
    assert seen + CallIds(ms[..0]) == seen;
    AlreadyDistinct(seen);
  }

  lemma {:induction false} AlreadyDistinct(xs: seq<string>)
    requires NoDuplicates(xs)
    ensures FirstAppearances(xs) == xs
  {
    if xs != [] {
      AlreadyDistinct(xs[..|xs| - 1]);
      assert xs == xs[..|xs| - 1] + [xs[|xs| - 1]];
    }
  }

  lemma CallIdsSnoc(ms: seq<Message>, i: nat)
    requires i < |ms|
    ensures CallIds(ms[..i + 1]) == CallIds(ms[..i]) + [ms[i].CallId()]
  {
    assert ms[..i + 1][..i] == ms[..i];
  }

  /** Both endpoints of every message have a column. */
  lemma HostsKnown(ms: seq<Message>, table: map<string, int>, k: nat)
    requires k < |ms| && Columns(table, FirstAppearances(EndpointKeys(ms)))
    ensures EndpointKey(ms[k].header.src) in table && EndpointKey(ms[k].header.dst) in table
  {
    FirstAppearancesOrdered(EndpointKeys(ms));
    KeysOfMessage(ms, k);
  }

  /** Every column and every box lies inside the image, and each box ends where the next begins. */
  lemma LayoutFits(ms: seq<Message>, table: map<string, int>, imgWidth: int, imgHeight: int, d: Drawn, next: Drawn,
                   k: nat)
    requires k < |ms| && Columns(table, FirstAppearances(EndpointKeys(ms)))
    requires imgWidth == 150 * |table| + 80
    requires imgHeight == 26 * |ms| + 60
    requires Placed(d, ms[k], k, table, imgWidth)
    ensures 0 < d.srcX < imgWidth && 0 < d.dstX < imgWidth
    ensures 0 < d.boxX && 0 < d.boxWidth && d.boxX + d.boxWidth < imgWidth
    ensures 0 < d.boxY && d.boxY + d.boxHeight < imgHeight
    ensures k + 1 < |ms| && Placed(next, ms[k + 1], k + 1, table, imgWidth) ==> next.boxY == d.boxY + d.boxHeight
    ensures d.srcX == d.dstX <==> ms[k].header.src == ms[k].header.dst
  {
    hide EndpointKey, FirstAppearances, EndpointKeys;
    var keys := FirstAppearances(EndpointKeys(ms));
    FirstAppearancesOrdered(EndpointKeys(ms));
    var src, dst := EndpointKey(ms[k].header.src), EndpointKey(ms[k].header.dst);
    var i :| 0 <= i < |keys| && keys[i] == src;
    var j :| 0 <= j < |keys| && keys[j] == dst;
    if src == dst { KeyInjective(ms[k].header.src, ms[k].header.dst); }
  }

  /** An arrow runs from the column of the message's source to that of its destination: an endpoint
      that is the i-th to appear, counted from 0, stands at 134 + 150i. */
  lemma ArrowEnds(ms: seq<Message>, table: map<string, int>, imgWidth: int, d: Drawn, k: nat, i: nat, j: nat)
    requires k < |ms| && Columns(table, FirstAppearances(EndpointKeys(ms))) && Placed(d, ms[k], k, table, imgWidth)
    requires i < |FirstAppearances(EndpointKeys(ms))| && j < |FirstAppearances(EndpointKeys(ms))|
    requires FirstAppearances(EndpointKeys(ms))[i] == EndpointKey(ms[k].header.src)
    requires FirstAppearances(EndpointKeys(ms))[j] == EndpointKey(ms[k].header.dst)
    ensures d.srcX == 134 + 150 * i && d.dstX == 134 + 150 * j
    ensures 20 + d.boxWidth == imgWidth - 20 && d.boxY == 32 + 26 * k && d.boxHeight == 26
  {
    hide EndpointKey, FirstAppearances, EndpointKeys;
  }

  lemma ModUnique(n: int, size: int, q: int, r: int)
    requires 0 <= r < size && n == size * q + r
    ensures n % size == r
  {
    MulGrows(size, n / size, q);
    MulGrows(size, q, n / size);
  }

  lemma MulGrows(size: int, a: int, b: int)
    requires 0 < size
    ensures a < b ==> size * a + size <= size * b
  {
    if a < b {
      assert size * (b - a - 1) >= 0;
    }
  }

  lemma NextColour(n: nat, size: nat)
    requires size > 0
    ensures n > 0 ==> n % size == if (n - 1) % size + 1 == size then 0 else (n - 1) % size + 1
    ensures n == 0 ==> n % size == 0
  {
    if n == 0 {
      ModUnique(0, size, 0, 0);
    } else {
      var q, r := (n - 1) / size, (n - 1) % size;
      if r + 1 == size {
        assert n == size * (q + 1) + 0;
        ModUnique(n, size, q + 1, 0);
      } else {
        ModUnique(n, size, q, r + 1);
      }
    }
  }
}
