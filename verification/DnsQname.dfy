/** ExplodeQname (dns.c) against the uncompressed names of sections 3.1 and 4.1.2 of RFC 1035. */
module DnsQname {
  import opened Basics

  type Label = seq<Byte>

  const NI_MAXHOST := 1025
  const DNS_MAX_LABEL_LEN := 63
  const DNS_MAXMSG := 512
  const DNS_HEADER_SIZE := 12
  const QUESTION_SIZE := 4
  const DOT: Byte := 46

  // ----- names

  ghost predicate ValidLabels(ls: seq<Label>) {
    forall i :: 0 <= i < |ls| ==> 1 <= |ls[i]| <= DNS_MAX_LABEL_LEN
  }

  /** The labels, each after its length, without the terminating zero. */
  ghost function Open(ls: seq<Label>): seq<Byte>
    requires ValidLabels(ls)
  {
    if ls == [] then [] else Open(ls[..|ls| - 1]) + [|ls[|ls| - 1]|] + ls[|ls| - 1]
  }

  ghost function Encode(ls: seq<Label>): seq<Byte>
    requires ValidLabels(ls)
  {
    Open(ls) + [0]
  }

  /** The labels with dots between them. */
  ghost function Join(ls: seq<Label>): seq<Byte>
    decreases |ls|, 0
  {
    if ls == [] then [] else Prefix(ls[..|ls| - 1]) + ls[|ls| - 1]
  }

  /** What precedes the next label in the dotted form. */
  ghost function Prefix(ls: seq<Label>): seq<Byte>
    decreases |ls|, 1
  {
    if ls == [] then [] else Join(ls) + [DOT]
  }

  /** s starts with the encoding of ls, leaves room for type and class after it, and the dotted form fits the buffer of
      the question with a byte to spare besides the terminating zero. */
  ghost predicate Accepts(s: seq<Byte>, ls: seq<Label>) {
    && ValidLabels(ls)
    && |Encode(ls)| + QUESTION_SIZE <= |s|
    && Encode(ls) <= s
    && |Join(ls)| + 2 <= NI_MAXHOST
  }

  function Short(s: seq<Byte>, i: nat): int
    requires i + 2 <= |s|
  {
    0x100 * (s[i] as int) + s[i + 1]
  }

  // ----- facts about encodings

  lemma {:induction false} OpenSplits(ls: seq<Label>, k: nat) returns (rest: seq<Byte>)
    requires ValidLabels(ls) && k < |ls|
    ensures Open(ls) == Open(ls[..k]) + [|ls[k]|] + ls[k] + rest
  {
    var n := |ls| - 1;
    if k == n {
      rest := [];
    } else {
      rest := OpenSplits(ls[..n], k);
      assert ls[..n][..k] == ls[..k];
      rest := rest + [|ls[n]|] + ls[n];
    }
  }

  lemma {:induction false} JoinGrows(ls: seq<Label>, k: nat)
    requires k < |ls|
    ensures |Prefix(ls[..k])| + |ls[k]| <= |Join(ls)|
  {
    var n := |ls| - 1;
    if k < n {
      JoinGrows(ls[..n], k);
      assert ls[..n][..k] == ls[..k];
    }
  }

  /** Label k of a name that s starts with, read off s. */
  lemma LabelAt(s: seq<Byte>, ls: seq<Label>, k: nat)
    requires ValidLabels(ls) && k < |ls| && Open(ls) <= s
    ensures var o := |Open(ls[..k])|;
      o + 1 + |ls[k]| <= |Open(ls)| && s[o] == |ls[k]| && s[o + 1..o + 1 + s[o]] == ls[k]
  {
    var rest := OpenSplits(ls, k);
    var o := |Open(ls[..k])|;
    assert Open(ls)[o] == |ls[k]|;
    assert Open(ls)[o + 1..o + 1 + |ls[k]|] == ls[k];
  }

  /** A name is determined by its bytes: the labels read so far are the first labels of every name s starts with. */
  lemma {:induction false} SameLabels(s: seq<Byte>, ls: seq<Label>, ls': seq<Label>, k: nat)
    requires ValidLabels(ls) && ValidLabels(ls') && k <= |ls|
    requires Open(ls) <= s && Encode(ls') <= s
    ensures k <= |ls'| && ls'[..k] == ls[..k]
  {
    if k == 0 {
    } else {
      SameLabels(s, ls, ls', k - 1);
      LabelAt(s, ls, k - 1);
      ZeroAtEnd(s, ls');
      assert ls'[..|ls'|] == ls';
      LabelAt(s, ls', k - 1);
    }
  }

  lemma ZeroAtEnd(s: seq<Byte>, ls: seq<Label>)
    requires ValidLabels(ls) && Encode(ls) <= s
    ensures Open(ls) <= s && |Open(ls)| < |s| && s[|Open(ls)|] == 0
  {
    assert s[|Open(ls)|] == Encode(ls)[|Open(ls)|];
  }

  lemma AcceptedIsUnique(s: seq<Byte>, ls: seq<Label>, ls': seq<Label>)
    requires Accepts(s, ls) && Accepts(s, ls')
    ensures ls == ls'
  {
    SameLabels(s, ls, ls', |ls|);
    SameLabels(s, ls', ls, |ls'|);
    assert ls'[..|ls'|] == ls' && ls[..|ls|] == ls;
  }

  /** The decoder accepts whatever the encoder of RFC 1035 produces for a name that fits, whatever follows. */
  lemma EncodedIsAccepted(ls: seq<Label>, rest: seq<Byte>)
    requires ValidLabels(ls) && |Join(ls)| + 2 <= NI_MAXHOST && |rest| >= QUESTION_SIZE
    ensures Accepts(Encode(ls) + rest, ls)
  {
  }

  /** A question of section 4.1.2 of RFC 1035: the name, then type and class in two bytes each, high byte first. */
  ghost function Question(ls: seq<Label>, qtype: int, qclass: int): seq<Byte>
    requires ValidLabels(ls)
  {
    Encode(ls) + [qtype / 256 % 256, qtype % 256, qclass / 256 % 256, qclass % 256]
  }

  /** Every question whose name fits is accepted, and read as it was asked. */
  lemma QuestionIsRead(ls: seq<Label>, qtype: int, qclass: int, rest: seq<Byte>)
    requires ValidLabels(ls) && |Join(ls)| + 2 <= NI_MAXHOST
    requires 0 <= qtype < 65536 && 0 <= qclass < 65536
    ensures var s := Question(ls, qtype, qclass) + rest;
      && Accepts(s, ls) && |Encode(ls)| + QUESTION_SIZE <= |s|
      && Short(s, |Encode(ls)|) == qtype && Short(s, |Encode(ls)| + 2) == qclass
  {
    hide Encode;
    var b := [qtype / 256 % 256, qtype % 256, qclass / 256 % 256, qclass % 256];
    var s, n := Question(ls, qtype, qclass) + rest, |Encode(ls)|;
    assert s == Encode(ls) + (b + rest);
    EncodedIsAccepted(ls, b + rest);
    assert s[n] == b[0] && s[n + 1] == b[1] && s[n + 2] == b[2] && s[n + 3] == b[3];
  }

  /** The dotted form: labels with single dots between them. */
  lemma DottedForm(ls: seq<Label>, l: Label)
    ensures Join([l]) == l
    ensures ls != [] ==> Join(ls + [l]) == Join(ls) + ['.' as int] + l
  {
    assert [l][..0] == [] && (ls + [l])[..|ls|] == ls;
  }

  lemma {:induction false} JoinLength(ls: seq<Label>)
    requires ValidLabels(ls)
    ensures |Prefix(ls)| == |Open(ls)|
  {
    if ls == [] {
    } else {
      JoinLength(ls[..|ls| - 1]);
    }
  }

  /** In datagrams of at most 512 bytes the name always fits. */
  lemma ShortDatagramsFit(s: seq<Byte>, ls: seq<Label>)
    requires |s| + DNS_HEADER_SIZE <= DNS_MAXMSG
    requires ValidLabels(ls) && |Encode(ls)| + QUESTION_SIZE <= |s| && Encode(ls) <= s
    ensures Accepts(s, ls)
  {
    JoinLength(ls);
  }

  // ----- the decoder

  ghost predicate Accepted(s: seq<Byte>) {
    exists ls :: Accepts(s, ls)
  }

  /** What is left of every accepted name when the labels ls have been read and byte n comes next. */
  lemma NextLabel(s: seq<Byte>, ls: seq<Label>, ls': seq<Label>)
    requires ValidLabels(ls) && Open(ls) <= s && Accepts(s, ls')
    ensures |Open(ls)| < |s| - QUESTION_SIZE
    ensures var n := s[|Open(ls)|]; n != 0 ==>
      && n <= DNS_MAX_LABEL_LEN
      && |Open(ls)| + 1 + n < |s| - QUESTION_SIZE
      && |Prefix(ls)| + n + 2 <= NI_MAXHOST
  {
    SameLabels(s, ls, ls', |ls|);
    assert ls[..|ls|] == ls;
    if |ls| < |ls'| {
      LabelAt(s, ls', |ls|);
      JoinGrows(ls', |ls|);
    } else {
      assert ls' == ls && Encode(ls')[|Open(ls)|] == s[|Open(ls)|];
    }
  }

  lemma OneMore(ls: seq<Label>, l: Label)
    requires ValidLabels(ls) && 1 <= |l| <= DNS_MAX_LABEL_LEN
    ensures ValidLabels(ls + [l]) && Open(ls + [l]) == Open(ls) + [|l|] + l && Join(ls + [l]) == Prefix(ls) + l
    ensures Prefix(ls + [l]) == Prefix(ls) + l + [DOT]
  {
    assert (ls + [l])[..|ls|] == ls;
  }

  /** Label l comes next in s. */
  lemma ReadOn(s: seq<Byte>, ls: seq<Label>, l: Label)
    requires ValidLabels(ls) && Open(ls) <= s && 1 <= |l| <= DNS_MAX_LABEL_LEN
    requires |Open(ls)| + 1 + |l| <= |s| && s[|Open(ls)|] == |l|
    requires s[|Open(ls)| + 1..|Open(ls)| + 1 + |l|] == l
    ensures ValidLabels(ls + [l]) && Open(ls + [l]) <= s && |Open(ls + [l])| == |Open(ls)| + 1 + |l|
  {
    var q := |Open(ls)|;
    OneMore(ls, l);
    assert s[..q + 1 + |l|] == s[..q] + [s[q]] + s[q + 1..q + 1 + |l|];
  }

  ghost predicate CannotGoOn(s: seq<Byte>, ls: seq<Label>)
    requires ValidLabels(ls)
  {
    var o := |Open(ls)|;
    || o + QUESTION_SIZE >= |s|
    || (s[o] != 0
        && (s[o] > DNS_MAX_LABEL_LEN || o + 1 + s[o] + QUESTION_SIZE > |s| || |Prefix(ls)| + s[o] + 2 > NI_MAXHOST))
  }

  /** The labels ls have been read, but no name can be accepted any more. */
  lemma Rejects(s: seq<Byte>, ls: seq<Label>)
    requires ValidLabels(ls) && Open(ls) <= s && CannotGoOn(s, ls)
    ensures !Accepted(s)
  {
    if ls' :| Accepts(s, ls') {
      NextLabel(s, ls, ls');
    }
  }

  /** The labels ls are followed by the terminating zero. */
  lemma Terminates(s: seq<Byte>, ls: seq<Label>)
    requires ValidLabels(ls) && Open(ls) <= s && |Join(ls)| + 2 <= NI_MAXHOST
    requires |Open(ls)| < |s| - QUESTION_SIZE && s[|Open(ls)|] == 0
    ensures Accepts(s, ls) && |Encode(ls)| == |Open(ls)| + 1 && forall ls' :: Accepts(s, ls') ==> ls' == ls
  {
    var o := |Open(ls)|;
    assert s[..o + 1] == s[..o] + [s[o]];
    assert Encode(ls) == s[..o + 1];
    forall ls' | Accepts(s, ls') ensures ls' == ls {
      AcceptedIsUnique(s, ls, ls');
    }
  }

  /** The name buffer after the labels ls: their dotted form, with a dot at the end unless the terminating zero comes
      next. */
  ghost predicate Written(name: array<Byte>, ls: seq<Label>, p: int, next: Byte)
    reads name
  {
    && 0 <= p <= name.Length && name[..p] == (if next == 0 then Join(ls) else Prefix(ls))
    && p + (if next == 0 then 2 else 1) <= NI_MAXHOST
  }

  /** memcpy of a label. */
  method CopyLabel(name: array<Byte>, p: nat, qname: array<Byte>, q: nat, n: nat)
    requires name != qname && p + n <= name.Length && q + n <= qname.Length
    modifies name
    ensures name[..p + n] == old(name[..p]) + qname[q..q + n]
  {
    forall k | 0 <= k < n {
      name[p + k] := qname[q + k];
    }
  }

  /** The dot after a label, unless the name ends. */
  method StoreDot(name: array<Byte>, p0: nat, next: Byte, ghost ls: seq<Label>, ghost l: Label) returns (p: nat)
    requires name.Length == NI_MAXHOST && p0 + 2 <= NI_MAXHOST && name[..p0] == Prefix(ls) + l
    requires ValidLabels(ls) && 1 <= |l| <= DNS_MAX_LABEL_LEN
    modifies name
    ensures p == (if next != 0 then p0 + 1 else p0) && Written(name, ls + [l], p, next)
  {
    hide Open, Join, Prefix;
    OneMore(ls, l);
    p := p0;
    if next != 0 {
      name[p] := DOT;
      p := p + 1;
      assert name[..p] == Prefix(ls) + l + [DOT];
    }
  }

  /** ExplodeQname: accepts exactly the encoded names, and stores the dotted form, the type and the class. */
  method ExplodeQname(name: array<Byte>, qname: array<Byte>, qname_len: int)
      returns (ok: bool, qtype: int, qclass: int)
    requires name.Length == NI_MAXHOST && name != qname && qname_len <= qname.Length
    modifies name
    ensures ok <==> 0 <= qname_len && Accepted(qname[..qname_len])
    ensures ok ==> forall ls :: Accepts(qname[..qname_len], ls) ==>
      && name[..|Join(ls)| + 1] == Join(ls) + [0]
      && qtype == Short(qname[..qname_len], |Encode(ls)|)
      && qclass == Short(qname[..qname_len], |Encode(ls)| + 2)
  {
    hide Open, Join, Prefix, Encode, Accepts;
    ok, qtype, qclass := false, 0, 0;
    if qname_len < 1 + QUESTION_SIZE {
      TooShort(if qname_len < 0 then [] else qname[..qname_len]);
      return;
    }
    ghost var s := qname[..qname_len];
    ghost var ls: seq<Label> := [];
    NoLabels();
    var lbl_end := qname_len - QUESTION_SIZE;
    var p, p_rem, q, n := 0, NI_MAXHOST, 0, 0;
    while q < lbl_end
      invariant 0 <= q <= lbl_end && p + p_rem == NI_MAXHOST && ValidLabels(ls)
      invariant Open(ls) <= s && |Open(ls)| == q
      invariant Written(name, ls, p, s[q])
      invariant q > 0 ==> n != 0
    {
      n := qname[q];
      if n == 0 {
        Terminates(s, ls);
        q := q + 1;
        break;
      }
      if n > DNS_MAX_LABEL_LEN || n >= p_rem || q + 1 + n > lbl_end {
        Rejects(s, ls);
        return;
      }
      ghost var l := qname[q + 1..q + 1 + n];
      assert l == s[q + 1..q + 1 + n];
      ReadOn(s, ls, l);
      CopyLabel(name, p, qname, q + 1, n);
      p, p_rem, q := p + n, p_rem - n, q + 1 + n;
      if p_rem < 2 {
        Rejects(s, ls);
        return;
      }
      p := StoreDot(name, p, qname[q], ls, l);
      p_rem := if qname[q] != 0 then p_rem - 1 else p_rem;
      ls := ls + [l];
    }
    if n != 0 {
      Rejects(s, ls);
      return;
    }
    name[p] := 0;
    qtype := 0x100 * (qname[q] as int) + qname[q + 1];
    qclass := 0x100 * (qname[q + 2] as int) + qname[q + 3];
    ok := true;
  }

  lemma TooShort(s: seq<Byte>)
    requires |s| < 1 + QUESTION_SIZE
    ensures !Accepted(s)
  {
  }

  lemma NoLabels()
    ensures Open([]) == [] && Join([]) == [] && Prefix([]) == []
  {
  }
}
