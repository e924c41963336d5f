/** The options field of a DHCP packet: the search and the writer of bootpd.c, after section 2 of RFC 2132. */
module DhcpOptions {
  import opened Basics

  const DHO_PAD: Byte := 0
  const DHO_END: Byte := 255
  const DHCP_OPTION_LEN := 1500 - (236 + 14 + 20 + 8)
  const DHCP_FIXED_NON_UDP := 236
  const COOKIE: seq<Byte> := [99, 130, 83, 99]
  /** Bytes behind the field that the search may look at: its bound does not take the cookie into account. */
  const SLACK := 5

  // ----- items

  datatype Item = Pad | Opt(code: Byte, value: seq<Byte>)

  ghost function EncodeItem(i: Item): (b: seq<Byte>)
    requires i.Opt? ==> |i.value| < 256
    ensures |b| == if i.Opt? then 2 + |i.value| else 1
  {
    match i
    case Pad => [DHO_PAD]
    case Opt(code, value) => [code, |value|] + value
  }

  /** Options have a code other than that of the padding, and a length of one byte. */
  ghost predicate ValidItem(i: Item) {
    i.Opt? ==> i.code != DHO_PAD && |i.value| < 256
  }

  ghost predicate ShortItems(items: seq<Item>) {
    forall k :: 0 <= k < |items| ==> items[k].Opt? ==> |items[k].value| < 256
  }

  ghost predicate ValidItems(items: seq<Item>) {
    forall k :: 0 <= k < |items| ==> ValidItem(items[k])
  }

  ghost function Encode(items: seq<Item>): seq<Byte>
    requires ShortItems(items)
  {
    if items == [] then [] else EncodeItem(items[0]) + Encode(items[1..])
  }

  ghost function FirstValue(items: seq<Item>, code: int): Option<seq<Byte>> {
    if items == [] then None
    else if items[0].Opt? && items[0].code == code then Some(items[0].value)
    else FirstValue(items[1..], code)
  }

  lemma {:induction false} EncodeConcat(a: seq<Item>, b: seq<Item>)
    requires ShortItems(a) && ShortItems(b)
    ensures Encode(a + b) == Encode(a) + Encode(b)
  {
    hide EncodeItem;
    if a == [] {
      assert a + b == b;
    } else {
      EncodeConcat(a[1..], b);
      assert (a + b)[1..] == a[1..] + b;
      assert Encode(a + b) == EncodeItem(a[0]) + (Encode(a[1..]) + Encode(b));
    }
  }

  // ----- the search

  ghost predicate Readable(s: seq<Byte>) {
    |s| == DHCP_OPTION_LEN + SLACK
  }

  /** Where the scan from ark stops, counted from behind the cookie. */
  ghost function Scan(s: seq<Byte>, ark: nat, nField: int): nat
    requires Readable(s)
    decreases DHCP_OPTION_LEN - ark
  {
    if ark >= DHCP_OPTION_LEN - 3 || s[4 + ark] == nField then ark
    else Scan(s, ark + if s[4 + ark] == DHO_PAD then 1 else 2 + (s[5 + ark] as int), nField)
  }

  /** Where in the field the value of the option starts, or None. */
  ghost function Search(s: seq<Byte>, nField: int): Option<nat>
    requires Readable(s)
  {
    var ark := Scan(s, 0, nField);
    if s[..4] == COOKIE && ark < DHCP_OPTION_LEN - 3 && ark + s[5 + ark] < DHCP_OPTION_LEN then Some(6 + ark) else None
  }

  ghost function Value(s: seq<Byte>, nField: int): Option<seq<Byte>>
    requires Readable(s)
  {
    match Search(s, nField)
    case None => None
    case Some(at) => Some(s[at..at + s[at - 1]])
  }

  method DHCPSearchOptionsField(pOpt: array<Byte>, nField: int) returns (r: Option<nat>, length: Byte)
    requires Readable(pOpt[..])
    ensures r == Search(pOpt[..], nField)
    ensures r.Some? ==> 6 <= r.value && length == pOpt[r.value - 1] && r.value + length <= pOpt.Length
  {
    if pOpt[0] != COOKIE[0] || pOpt[1] != COOKIE[1] || pOpt[2] != COOKIE[2] || pOpt[3] != COOKIE[3] {
      return None, 0;
    }
    assert pOpt[..][..4] == COOKIE;
    var ark := 0;
    while ark < DHCP_OPTION_LEN - 3 && pOpt[4 + ark] != nField
      invariant Scan(pOpt[..], ark, nField) == Scan(pOpt[..], 0, nField)
      decreases DHCP_OPTION_LEN - ark
    {
      ark := ark + if pOpt[4 + ark] == DHO_PAD then 1 else 2 + (pOpt[5 + ark] as int);
    }
    if ark < DHCP_OPTION_LEN - 3 && ark + pOpt[5 + ark] < DHCP_OPTION_LEN && pOpt[4 + ark] == nField {
      return Some(6 + ark), pOpt[5 + ark];
    }
    return None, 0;
  }

  /** The bytes b stand in s from position at on, inside the field. */
  ghost predicate Holds(s: seq<Byte>, at: nat, b: seq<Byte>) {
    at + |b| <= DHCP_OPTION_LEN && at + |b| <= |s| && s[at..at + |b|] == b
  }

  ghost predicate OptionAt(s: seq<Byte>, ark: nat, code: int, v: seq<Byte>) {
    && 6 + ark + |v| <= DHCP_OPTION_LEN && 6 + ark + |v| <= |s|
    && s[4 + ark] == code && s[5 + ark] == |v| && s[6 + ark..6 + ark + |v|] == v
  }

  /** The scan reads items one by one: it stops at the first with the code, or comes to what follows them. */
  lemma {:induction false} ScanItems(s: seq<Byte>, ark: nat, items: seq<Item>, code: int)
    requires Readable(s) && ValidItems(items) && code != DHO_PAD
    requires Holds(s, 4 + ark, Encode(items))
    ensures match FirstValue(items, code)
            case None => Scan(s, ark, code) == Scan(s, ark + |Encode(items)|, code)
            case Some(v) => OptionAt(s, Scan(s, ark, code), code, v)
    decreases |items|
  {
    hide Holds, EncodeItem, OptionAt;
    if items == [] {
      assert ark + |Encode(items)| == ark;
    } else {
      var n := |EncodeItem(items[0])|;
      HoldsSplit(s, 4 + ark, EncodeItem(items[0]), Encode(items[1..]));
      ScanItem(s, ark, items[0], code);
      if !(items[0].Opt? && items[0].code == code) {
        assert ark + n + |Encode(items[1..])| == ark + |Encode(items)|;
        ScanItems(s, ark + n, items[1..], code);
      }
    }
  }

  lemma ScanItem(s: seq<Byte>, ark: nat, i: Item, code: int)
    requires Readable(s) && ValidItem(i) && code != DHO_PAD && Holds(s, 4 + ark, EncodeItem(i))
    ensures if i.Opt? && i.code == code
            then Scan(s, ark, code) == ark && OptionAt(s, ark, code, i.value)
            else Scan(s, ark, code) == Scan(s, ark + |EncodeItem(i)|, code)
  {
    ItemAt(s, 4 + ark, i);
  }

  lemma HoldsSplit(s: seq<Byte>, at: nat, a: seq<Byte>, b: seq<Byte>)
    ensures Holds(s, at, a + b) <==> Holds(s, at, a) && Holds(s, at + |a|, b)
  {
    if at + |a| + |b| <= DHCP_OPTION_LEN && at + |a| + |b| <= |s| {
      var t := s[at..at + |a| + |b|];
      assert s[at..at + |a|] == t[..|a|] && s[at + |a|..at + |a| + |b|] == t[|a|..];
      assert t == t[..|a|] + t[|a|..];
      assert (a + b)[..|a|] == a && (a + b)[|a|..] == b;
    }
  }

  lemma ItemAt(s: seq<Byte>, at: nat, i: Item)
    requires ValidItem(i) && Holds(s, at, EncodeItem(i))
    ensures s[at] == if i.Opt? then i.code else DHO_PAD
    ensures i.Opt? ==> s[at + 1] == |i.value| && s[at + 2..at + 2 + |i.value|] == i.value
  {
    var b := EncodeItem(i);
    assert forall k :: 0 <= k < |b| ==> s[at..at + |b|][k] == b[k];
    if i.Opt? {
      assert b[2..] == i.value;
    }
  }

  lemma {:induction false} ScanZeros(s: seq<Byte>, ark: nat, code: int)
    requires Readable(s) && code != DHO_PAD
    requires forall k :: 4 + ark <= k <= DHCP_OPTION_LEN ==> s[k] == DHO_PAD
    ensures Scan(s, ark, code) >= DHCP_OPTION_LEN - 3
    decreases DHCP_OPTION_LEN - ark
  {
    if ark < DHCP_OPTION_LEN - 3 {
      ScanZeros(s, ark + 1, code);
    }
  }

  lemma PastEnd(s: seq<Byte>, end: nat, code: int)
    requires Readable(s) && code != DHO_PAD && code != DHO_END && 4 + end < DHCP_OPTION_LEN && s[4 + end] == DHO_END
    requires forall k :: 5 + end <= k <= DHCP_OPTION_LEN ==> s[k] == DHO_PAD
    ensures Scan(s, end, code) >= DHCP_OPTION_LEN - 3
  {
    if end < DHCP_OPTION_LEN - 3 {
      ScanZeros(s, end + 2, code);
    }
  }

  /** The options field of a packet: items, the end option, padding up to and just behind the end of the field. */
  ghost predicate WellFormed(s: seq<Byte>, items: seq<Item>) {
    && Readable(s) && ValidItems(items)
    && Holds(s, 0, COOKIE + Encode(items) + [DHO_END])
    && forall k :: 5 + |Encode(items)| <= k <= DHCP_OPTION_LEN ==> s[k] == DHO_PAD
  }

  lemma Parts(s: seq<Byte>, b: seq<Byte>)
    requires Holds(s, 0, COOKIE + b + [DHO_END])
    ensures s[..4] == COOKIE && Holds(s, 4, b) && 4 + |b| < DHCP_OPTION_LEN && s[4 + |b|] == DHO_END
  {
    HoldsSplit(s, 0, COOKIE + b, [DHO_END]);
    HoldsSplit(s, 0, COOKIE, b);
    assert s[4 + |b|..5 + |b|][0] == DHO_END;
  }

  lemma ValueIs(s: seq<Byte>, code: int)
    requires Readable(s) && s[..4] == COOKIE
    ensures Scan(s, 0, code) >= DHCP_OPTION_LEN - 3 ==> Value(s, code) == None
    ensures forall v :: OptionAt(s, Scan(s, 0, code), code, v) ==> Value(s, code) == Some(v)
  {
    hide Scan;
  }

  /** Whatever follows the first items, the first of them with the code is found. */
  lemma PrefixFinds(s: seq<Byte>, items: seq<Item>, rest: seq<Item>, code: int)
    requires Readable(s) && ValidItems(items) && ShortItems(rest) && ShortItems(items + rest) && code != DHO_PAD
    requires Holds(s, 0, COOKIE + Encode(items + rest) + [DHO_END]) && FirstValue(items, code).Some?
    ensures Value(s, code) == FirstValue(items, code)
  {
    hide Holds, Scan, Value, Encode;
    SplitItems(s, items, rest);
    ScanItems(s, 0, items, code);
    ValueIs(s, code);
  }

  lemma SplitItems(s: seq<Byte>, items: seq<Item>, rest: seq<Item>)
    requires ShortItems(items) && ShortItems(rest) && ShortItems(items + rest)
    requires Holds(s, 0, COOKIE + Encode(items + rest) + [DHO_END])
    ensures s[..4] == COOKIE && Holds(s, 4, Encode(items)) && Holds(s, 4 + |Encode(items)|, Encode(rest))
  {
    hide Holds, Encode;
    Parts(s, Encode(items + rest));
    EncodeConcat(items, rest);
    HoldsSplit(s, 4, Encode(items), Encode(rest));
  }

  /** An option written with the code of the padding: its length is taken for a code, and the first byte of its value
      for the length of an option that nobody wrote. */
  lemma Phantom(s: seq<Byte>, items: seq<Item>, value: seq<Byte>, rest: seq<Item>)
    requires Readable(s) && ValidItems(items) && ShortItems(items + ([Opt(DHO_PAD, value)] + rest))
    requires 0 < |value| < 256 && value[0] == 0 && FirstValue(items, |value|) == None
    requires Holds(s, 0, COOKIE + Encode(items + ([Opt(DHO_PAD, value)] + rest)) + [DHO_END])
    ensures Value(s, |value|) == Some([])
  {
    hide Holds, Scan, Value, Encode;
    var bad := Opt(DHO_PAD, value);
    assert forall k :: 0 <= k < |rest| ==> rest[k] == (items + ([bad] + rest))[|items| + 1 + k];
    SplitItems(s, items, [bad] + rest);
    ScanItems(s, 0, items, |value|);
    var ark := |Encode(items)|;
    assert Encode([bad] + rest) == EncodeItem(bad) + Encode(rest) by {
      EncodeHead(bad, rest);
    }
    HoldsSplit(s, 4 + ark, EncodeItem(bad), Encode(rest));
    PhantomAt(s, ark, value);
    ValueIs(s, |value|);
  }

  lemma EncodeHead(i: Item, rest: seq<Item>)
    requires ShortItems([i] + rest) && ShortItems(rest) && (i.Opt? ==> |i.value| < 256)
    ensures Encode([i] + rest) == EncodeItem(i) + Encode(rest)
  {
    assert ([i] + rest)[1..] == rest;
  }

  lemma PhantomAt(s: seq<Byte>, ark: nat, value: seq<Byte>)
    requires Readable(s) && 0 < |value| < 256 && value[0] == 0
    requires Holds(s, 4 + ark, EncodeItem(Opt(DHO_PAD, value)))
    ensures Scan(s, ark, |value|) == ark + 1 && OptionAt(s, ark + 1, |value|, [])
  {
    var b := EncodeItem(Opt(DHO_PAD, value));
    assert forall k :: 0 <= k < |b| ==> s[4 + ark..4 + ark + |b|][k] == b[k];
    assert b[2] == value[0];
    assert s[4 + ark] == 0 && s[5 + ark] == |value| && s[6 + ark] == 0;
  }

  // ----- reading as section 2 of RFC 2132 has it

  /** The options of a field: padding is skipped, the end option ends the list. */
  ghost function Parse(s: seq<Byte>): seq<Item> {
    if s == [] || s[0] == DHO_END then []
    else if s[0] == DHO_PAD then Parse(s[1..])
    else if |s| < 2 || |s| - 2 < s[1] then []
    else [Opt(s[0], s[2..2 + (s[1] as int)])] + Parse(s[2 + (s[1] as int)..])
  }

  predicate Proper(i: Item) {
    i.Opt? && i.code != DHO_PAD && i.code != DHO_END
  }

  lemma {:induction false} ParsedAreProper(s: seq<Byte>)
    ensures forall i <- Parse(s) :: Proper(i)
  {
    if s == [] || s[0] == DHO_END {
    } else if s[0] == DHO_PAD {
      ParsedAreProper(s[1..]);
    } else if |s| >= 2 && |s| - 2 >= s[1] {
      ParsedAreProper(s[2 + (s[1] as int)..]);
    }
  }

  lemma ParseOne(code: Byte, value: seq<Byte>, more: seq<Byte>)
    requires |value| < 256 && Proper(Opt(code, value))
    ensures Parse([code, |value|] + value + more) == [Opt(code, value)] + Parse(more)
  {
    var s := [code, |value|] + value + more;
    assert s[2..2 + |value|] == value && s[2 + |value|..] == more;
  }

  /** What was written is read back, whatever follows the end option. */
  lemma {:induction false} ParseOfEncoded(items: seq<Item>, rest: seq<Byte>)
    requires ShortItems(items) && forall i <- items :: Proper(i)
    ensures Parse(Encode(items) + [DHO_END] + rest) == items
  {
    hide Parse;
    if items == [] {
      ParseEnd(rest);
      assert Encode(items) + [DHO_END] + rest == [DHO_END] + rest;
    } else {
      var i, more := items[0], Encode(items[1..]) + [DHO_END] + rest;
      assert i in items;
      ParseOfEncoded(items[1..], rest);
      ParseOne(i.code, i.value, more);
      assert Encode(items) + [DHO_END] + rest == EncodeItem(i) + more;
      assert items == [i] + items[1..];
    }
  }

  lemma ParseEnd(rest: seq<Byte>)
    ensures Parse([DHO_END] + rest) == []
  {
  }

  /** The value of the first option with the code is found, whatever follows the items. */
  lemma SearchFinds(s: seq<Byte>, items: seq<Item>, code: int)
    requires Readable(s) && ValidItems(items) && code != DHO_PAD
    requires Holds(s, 0, COOKIE + Encode(items) + [DHO_END])
    ensures FirstValue(items, code).Some? ==> Value(s, code) == FirstValue(items, code)
  {
    hide Holds, Scan, Value, Encode;
    Parts(s, Encode(items));
    ScanItems(s, 0, items, code);
    ValueIs(s, code);
  }

  /** On every well-formed field the search returns the value of the first option with the code, or nothing. */
  lemma SearchIsFirst(s: seq<Byte>, items: seq<Item>, code: int)
    requires WellFormed(s, items) && code != DHO_PAD && code != DHO_END
    ensures Value(s, code) == FirstValue(items, code)
  {
    hide Holds, Scan, Value, Encode;
    SearchFinds(s, items, code);
    Parts(s, Encode(items));
    if FirstValue(items, code).None? {
      ScanItems(s, 0, items, code);
      PastEnd(s, |Encode(items)|, code);
      ValueIs(s, code);
    }
  }
}
