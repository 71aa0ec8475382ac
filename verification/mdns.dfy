// The question parser of mdns.c, section 4.1.2 of RFC 1035.

module Mdns {

  import opened Basics

  const TYPE_PTR := 12
  const DOT: byte := 46
  const NAME_MAX := 63

  function Code(c: char): byte { if c < '\U{0080}' then c as int else 0 }

  function Ascii(s: string): (r: seq<byte>)
    ensures |r| == |s|
  {
    if s == "" then [] else [Code(s[0])] + Ascii(s[1..])
  }

  function ServiceLabels(): seq<seq<byte>> { [Ascii("_vxi-11"), Ascii("_tcp"), Ascii("local")] }

  function ShortLabels(): seq<seq<byte>> { [Ascii("_vxi-11"), Ascii("_tcp")] }

  /** Labels with dots between them. */
  function Dotted(labels: seq<seq<byte>>): seq<byte> {
    if labels == [] then [] else if |labels| == 1 then labels[0] else labels[0] + [DOT] + Dotted(labels[1..])
  }

  predicate IsService(name: seq<byte>) {
    name == Ascii("_vxi-11._tcp.local") || name == Ascii("_vxi-11._tcp")
  }

  // ------------------------------------------------------------ what the parser computes

  /** A name is collected in a buffer of 64 characters; a label may run past the packet. */
  datatype Name = Name(text: seq<byte>, pos: nat) | Broken

  /** The text before the label: a dot if there is a label before it and room. */
  function WithDot(name: seq<byte>): seq<byte> {
    if 0 < |name| < NAME_MAX then name + [DOT] else name
  }

  /** The loop over labels: a label that does not fit the name buffer is only consumed as far as it was copied. */
  function NameFrom(pkt: seq<byte>, pos: nat, name: seq<byte>): (r: Name)
    requires pos <= |pkt| && |name| <= NAME_MAX
    ensures r.Name? ==> |r.text| <= NAME_MAX
    decreases |pkt| - pos
  {
    if pos == |pkt| then Name(name, pos)
    else
      var n := pkt[pos];
      if n == 0 then Name(name, pos + 1)
      else if n >= 0xC0 then Name(name, (pos + 2) % 0x1_0000)
      else if n > 63 || pos + 1 + n > |pkt| then Broken
      else
        var dotted := WithDot(name);
        var k := Min(n, NAME_MAX - |dotted|);
        NameFrom(pkt, pos + 1 + k, dotted + pkt[pos + 1..pos + 1 + k])
  }

  /** A name as strcmp sees it. */
  function UpToNul(name: seq<byte>): seq<byte> {
    if name == [] || name[0] == 0 then [] else [name[0]] + UpToNul(name[1..])
  }

  /** The loop over questions. */
  function AnyWants(pkt: seq<byte>, pos: nat, left: nat): bool
    decreases left
  {
    if left == 0 || pos >= |pkt| then false
    else
      match NameFrom(pkt, pos, [])
      case Broken => false
      case Name(text, at) =>
        if at + 4 > |pkt| then false
        else if 256 * pkt[at] as int + pkt[at + 1] as int == TYPE_PTR && IsService(UpToNul(text)) then true
        else AnyWants(pkt, at + 4, left - 1)
  }

  predicate Wants(pkt: seq<byte>) {
    && 12 <= |pkt| && pkt[2] < 0x80
    && AnyWants(pkt, 12, 256 * pkt[4] as int + pkt[5] as int)
  }

  // ------------------------------------------------------------ the C functions

  /** The copy loop: at most n characters, as many as the name buffer has room for. */
  method CopyLabel(pkt: array<byte>, pos0: nat, n: nat, name: array<byte>, np0: nat) returns (pos: nat, np: nat)
    requires pos0 + n <= pkt.Length && name.Length == 64 && np0 <= NAME_MAX && name != pkt
    modifies name
    ensures var k := Min(n, NAME_MAX - np0);
            && pos == pos0 + k && np == np0 + k
            && name[..np] == old(name[..np0]) + pkt[pos0..pos0 + k]
  {
    pos, np := pos0, np0;
    var i := 0;
    while i < n && np < name.Length - 1
      invariant i <= n && np == np0 + i <= NAME_MAX && pos == pos0 + i
      invariant name[..np] == old(name[..np0]) + pkt[pos0..pos]
      decreases n - i
    {
      name[np] := pkt[pos];
      np := np + 1;
      pos := pos + 1;
      i := i + 1;
    }
  }

  /** The loop over the labels of one question; the cursor has 16 bits. */
  method ReadName(pkt: array<byte>, pos0: nat, name: array<byte>) returns (ok: bool, pos: nat, np: nat)
    requires pos0 <= pkt.Length < 0x1_0000 && name.Length == 64 && name != pkt
    modifies name
    ensures pkt[..] == old(pkt[..]) && np <= NAME_MAX
    ensures NameFrom(pkt[..], pos0, []) == if ok then Name(name[..np], pos) else Broken
  {
    pos, np := pos0, 0;
    ghost var packet := pkt[..];
    assert name[..np] == [];
    while pos < pkt.Length
      invariant pos <= pkt.Length && np <= NAME_MAX && pkt[..] == packet
      invariant NameFrom(packet, pos, name[..np]) == NameFrom(packet, pos0, [])
      decreases pkt.Length - pos
    {
      ghost var before := name[..np];
      var n := pkt[pos];
      pos := pos + 1;
      if n == 0 {
        return true, pos, np;
      }
      if n >= 0xC0 {
        pos := (pos + 1) % 0x1_0000;
        return true, pos, np;
      }
      if n > 63 || pos + n > pkt.Length {
        return false, pos, np;
      }
      if np > 0 && np < name.Length - 1 {
        name[np] := DOT;
        np := np + 1;
      }
      assert name[..np] == WithDot(before);
      pos, np := CopyLabel(pkt, pos, n, name, np);
    }
    ok := true;
  }

  /** strcmp of the collected name with the two service names. */
  method NameIsService(name: array<byte>, np: nat) returns (r: bool)
    requires np <= NAME_MAX && name.Length == 64
    modifies name
    ensures r == IsService(UpToNul(old(name[..np])))
  {
    ghost var text := name[..np];
    name[np] := 0;
    var k := 0;
    assert text[0..] == text;
    while name[k] != 0
      invariant k <= np && name[np] == 0 && name[..np] == text
      invariant UpToNul(text) == text[..k] + UpToNul(text[k..])
      decreases np - k
    {
      assert k < np && text[k..][0] == text[k] && text[k..][1..] == text[k + 1..];
      k := k + 1;
    }
    assert k < np ==> text[k..][0] == text[k] == 0;
    assert UpToNul(text) == name[..k];
    r := IsService(name[..k]);
  }

  /** query_wants_vxi11, for any packet: it terminates and reads nothing outside the packet. */
  method QueryWantsVxi11(pkt: array<byte>) returns (wants: bool)
    requires pkt.Length < 0x1_0000
    ensures wants == Wants(pkt[..])
  {
    hide NameFrom, IsService, UpToNul;
    ghost var packet := pkt[..];
    if pkt.Length < 12 {
      return false;
    }
    var qdcount := 256 * pkt[4] as int + pkt[5] as int;
    if pkt[2] >= 0x80 {
      return false;
    }
    if qdcount == 0 {
      return false;
    }
    var pos := 12;
    var q := 0;
    while q < qdcount && pos < pkt.Length
      invariant 0 <= q <= qdcount && pkt[..] == packet && 0 <= pos
      invariant AnyWants(packet, 12, qdcount) == AnyWants(packet, pos, qdcount - q)
      decreases qdcount - q
    {
      var name := new byte[64](_ => 0);
      var ok, at, np := ReadName(pkt, pos, name);
      if !ok {
        return false;
      }
      if at + 4 > pkt.Length {
        return false;
      }
      var qtype := 256 * pkt[at] as int + pkt[at + 1] as int;
      pos := at + 4;
      var service := NameIsService(name, np);
      if qtype == TYPE_PTR && service {
        return true;
      }
      q := q + 1;
    }
    wants := false;
  }

  // ------------------------------------------------------------ encoded queries

  /** A question; tail is what ends its name: the root, or a pointer to the rest of the name. */
  datatype Question = Question(labels: seq<seq<byte>>, tail: seq<byte>, qtype: nat, qclass: nat)

  /** A label: 1 to 63 characters, neither dot nor NUL. */
  predicate IsLabel(l: seq<byte>) { 1 <= |l| <= 63 && DOT !in l && 0 !in l }

  predicate AllLabels(labels: seq<seq<byte>>) { forall i :: 0 <= i < |labels| ==> IsLabel(labels[i]) }

  predicate SevenBit(labels: seq<seq<byte>>) {
    forall i, k :: 0 <= i < |labels| && 0 <= k < |labels[i]| ==> labels[i][k] < 128
  }

  predicate IsTail(tail: seq<byte>) { tail == [0] || (|tail| == 2 && tail[0] >= 0xC0) }

  /** Any question, of which a name that does not fit the name buffer has 7-bit labels. */
  predicate Encodable(q: Question) {
    && AllLabels(q.labels) && IsTail(q.tail) && q.qtype < 0x1_0000 && q.qclass < 0x1_0000
    && (|Dotted(q.labels)| <= NAME_MAX || SevenBit(q.labels))
  }

  function Word16(v: nat): (r: seq<byte>)
    requires v < 0x1_0000
    ensures |r| == 2 && 256 * r[0] as int + r[1] as int == v
  {
    [v / 256, v % 256]
  }

  function EncodeName(labels: seq<seq<byte>>, tail: seq<byte>): seq<byte>
    requires AllLabels(labels)
  {
    if labels == [] then tail
    else assert IsLabel(labels[0]); [|labels[0]| as byte] + labels[0] + EncodeName(labels[1..], tail)
  }

  function EncodeQuestion(q: Question): seq<byte>
    requires Encodable(q)
  {
    EncodeName(q.labels, q.tail) + Word16(q.qtype) + Word16(q.qclass)
  }

  function EncodeAll(qs: seq<Question>): seq<byte>
    requires forall i :: 0 <= i < |qs| ==> Encodable(qs[i])
  {
    if qs == [] then [] else EncodeQuestion(qs[0]) + EncodeAll(qs[1..])
  }

  /** What has been collected before the labels that are still to come. */
  function Extended(name: seq<byte>, labels: seq<seq<byte>>): seq<byte> {
    if labels == [] then name else if name == [] then Dotted(labels) else name + [DOT] + Dotted(labels)
  }

  lemma {:induction false} NameDecoded(pkt: seq<byte>, pos: nat, labels: seq<seq<byte>>, tail: seq<byte>, name: seq<byte>)
    requires AllLabels(labels) && IsTail(tail) && |pkt| < 0x1_0000
    requires Stands(pkt, pos, EncodeName(labels, tail)) && |Extended(name, labels)| <= NAME_MAX && |name| <= NAME_MAX
    ensures NameFrom(pkt, pos, name) == Name(Extended(name, labels), pos + |EncodeName(labels, tail)|)
    decreases |labels|
  {
    hide NameFrom, Extended, WithDot, IsTail;
    if labels == [] {
      NameEnds(pkt, pos, tail, name);
    } else {
      var l, rest := labels[0], labels[1..];
      assert IsLabel(l);
      assert EncodeName(labels, tail) == [|l| as byte] + l + EncodeName(rest, tail);
      StandsApart(pkt, pos, [|l| as byte] + l, EncodeName(rest, tail));
      ExtendedStep(name, labels);
      LabelRead(pkt, pos, l, name);
      NameDecoded(pkt, pos + 1 + |l|, rest, tail, WithDot(name) + l);
    }
  }

  lemma NameEnds(pkt: seq<byte>, pos: nat, tail: seq<byte>, name: seq<byte>)
    requires IsTail(tail) && Stands(pkt, pos, tail) && |name| <= NAME_MAX && |pkt| < 0x1_0000
    ensures NameFrom(pkt, pos, name) == Name(name, pos + |tail|) && Extended(name, []) == name
  {
    assert pkt[pos] == pkt[pos..pos + |tail|][0];
  }

  /** A label that fits the name buffer is appended whole. */
  lemma LabelRead(pkt: seq<byte>, pos: nat, l: seq<byte>, name: seq<byte>)
    requires 1 <= |l| <= 63 && Stands(pkt, pos, [|l| as byte] + l)
    requires |name| <= NAME_MAX && |WithDot(name) + l| <= NAME_MAX
    ensures NameFrom(pkt, pos, name) == NameFrom(pkt, pos + 1 + |l|, WithDot(name) + l)
  {
    hide WithDot;
    StandsApart(pkt, pos, [|l| as byte], l);
    assert pkt[pos] == pkt[pos..pos + 1][0];
    assert Min(|l|, NAME_MAX - |WithDot(name)|) == |l| && pkt[pos + 1..pos + 1 + |l|] == l;
  }

  lemma ExtendedStep(name: seq<byte>, labels: seq<seq<byte>>)
    requires labels != [] && IsLabel(labels[0]) && (|name| < NAME_MAX || |Extended(name, labels)| <= NAME_MAX)
    ensures var next := WithDot(name) + labels[0];
            Extended(next, labels[1..]) == Extended(name, labels) && |next| <= |Extended(name, labels)|
            && next <= Extended(name, labels)
  {
    var l := labels[0];
    if |labels| > 1 {
      assert Dotted(labels) == l + [DOT] + Dotted(labels[1..]);
    }
  }

  // ------------------------------------------------------------ names that do not fit the name buffer

  /** Once the buffer is full every byte is taken for the length of a label that has no characters. */
  predicate Passable(pkt: seq<byte>, from: nat, to: nat)
    requires to <= |pkt|
  {
    forall p :: from <= p < to ==> pkt[p] <= 63 && p + 1 + pkt[p] <= |pkt|
  }

  lemma {:induction false} FullName(pkt: seq<byte>, pos: nat, end: nat, tail: seq<byte>, name: seq<byte>)
    requires pos <= end <= |pkt| < 0x1_0000 && |name| == NAME_MAX
    requires IsTail(tail) && Stands(pkt, end, tail) && forall p :: pos <= p < end ==> 0 < pkt[p] < 128
    ensures NameFrom(pkt, pos, name) == if Passable(pkt, pos, end) then Name(name, end + |tail|) else Broken
    decreases end - pos
  {
    hide IsTail, Stands;
    if pos == end {
      NameEnds(pkt, pos, tail, name);
    } else {
      FullName(pkt, pos + 1, end, tail, name);
      assert name + pkt[pos + 1..pos + 1] == name;
      assert Passable(pkt, pos, end) <==> (pkt[pos] <= 63 && pos + 1 + pkt[pos] <= |pkt|) && Passable(pkt, pos + 1, end);
    }
  }

  /** A label that does not fit: what there is room for is copied, and the cursor stops behind it. */
  lemma LabelCut(pkt: seq<byte>, pos: nat, l: seq<byte>, name: seq<byte>)
    requires 1 <= |l| <= 63 && Stands(pkt, pos, [|l| as byte] + l)
    requires |name| < NAME_MAX < |WithDot(name) + l|
    ensures var k := NAME_MAX - |WithDot(name)|;
            NameFrom(pkt, pos, name) == NameFrom(pkt, pos + 1 + k, (WithDot(name) + l)[..NAME_MAX])
  {
    StandsApart(pkt, pos, [|l| as byte], l);
    assert pkt[pos] == pkt[pos..pos + 1][0];
    var k := NAME_MAX - |WithDot(name)|;
    assert pkt[pos + 1..pos + 1 + k] == l[..k];
    assert WithDot(name) + l[..k] == (WithDot(name) + l)[..NAME_MAX];
  }

  /** The bytes of encoded 7-bit labels. */
  lemma {:induction false} LabelBytes(labels: seq<seq<byte>>, tail: seq<byte>)
    requires AllLabels(labels) && SevenBit(labels)
    ensures var n := |EncodeName(labels, tail)| - |tail|;
            n >= 0 && EncodeName(labels, tail)[n..] == tail && forall i :: 0 <= i < n ==> 0 < EncodeName(labels, tail)[i] < 128
    decreases |labels|
  {
    if labels != [] {
      var l := labels[0];
      assert IsLabel(l);
      LabelBytes(labels[1..], tail);
      assert EncodeName(labels, tail) == [|l| as byte] + l + EncodeName(labels[1..], tail);
      assert forall k :: 0 <= k < |l| ==> l[k] in l;
    }
  }

  /** Where the name buffer is full: each of its characters but the first of the name stands for one byte. */
  function FullAt(pos: nat, name: seq<byte>): nat
    requires |name| <= NAME_MAX
  {
    if name == [] then pos + 1 + NAME_MAX else pos + NAME_MAX - |name|
  }

  lemma {:induction false} LongName(pkt: seq<byte>, pos: nat, labels: seq<seq<byte>>, tail: seq<byte>, name: seq<byte>)
    requires AllLabels(labels) && SevenBit(labels) && IsTail(tail) && |pkt| < 0x1_0000
    requires Stands(pkt, pos, EncodeName(labels, tail)) && |name| <= NAME_MAX < |Extended(name, labels)|
    ensures var end := pos + |EncodeName(labels, tail)| - |tail|;
            && FullAt(pos, name) <= end <= |pkt|
            && NameFrom(pkt, pos, name) == if Passable(pkt, FullAt(pos, name), end)
                                           then Name(Extended(name, labels)[..NAME_MAX], end + |tail|) else Broken
    decreases |labels|
  {
    hide NameFrom, Extended, WithDot, IsTail, Passable, Stands, SevenBit, EncodeName;
    ExtendedNone(name);
    var l, rest := labels[0], labels[1..];
    EncodedBytes(pkt, pos, labels, tail);
    var end := pos + |EncodeName(labels, tail)| - |tail|;
    if |name| == NAME_MAX {
      FullName(pkt, pos, end, tail, name);
      ExtendedPrefix(name, labels);
    } else {
      NextLabel(pkt, pos, labels, tail);
      ExtendedStep(name, labels);
      WithDotLength(name);
      var next := WithDot(name) + l;
      if |next| <= NAME_MAX {
        LabelRead(pkt, pos, l, name);
        LongName(pkt, pos + 1 + |l|, rest, tail, next);
      } else {
        LabelCut(pkt, pos, l, name);
        FullName(pkt, FullAt(pos, name), end, tail, next[..NAME_MAX]);
        assert next[..NAME_MAX] == Extended(name, labels)[..NAME_MAX];
      }
    }
  }

  lemma ExtendedNone(name: seq<byte>)
    ensures Extended(name, []) == name
  {
  }

  lemma ExtendedPrefix(name: seq<byte>, labels: seq<seq<byte>>)
    requires name != []
    ensures |name| <= |Extended(name, labels)| && Extended(name, labels)[..|name|] == name
  {
  }

  lemma WithDotLength(name: seq<byte>)
    ensures |WithDot(name)| == if 0 < |name| < NAME_MAX then |name| + 1 else |name|
  {
  }

  lemma NextLabel(pkt: seq<byte>, pos: nat, labels: seq<seq<byte>>, tail: seq<byte>)
    requires labels != [] && AllLabels(labels) && SevenBit(labels) && Stands(pkt, pos, EncodeName(labels, tail))
    ensures var l, rest := labels[0], labels[1..];
            && IsLabel(l) && AllLabels(rest) && SevenBit(rest)
            && Stands(pkt, pos, [|l| as byte] + l) && Stands(pkt, pos + 1 + |l|, EncodeName(rest, tail))
            && |EncodeName(labels, tail)| == 1 + |l| + |EncodeName(rest, tail)|
            && |tail| <= |EncodeName(rest, tail)|
  {
    var l, rest := labels[0], labels[1..];
    assert IsLabel(l);
    LabelBytes(rest, tail);
    StandsApart(pkt, pos, [|l| as byte] + l, EncodeName(rest, tail));
  }

  /** The same bytes in a packet. */
  lemma EncodedBytes(pkt: seq<byte>, pos: nat, labels: seq<seq<byte>>, tail: seq<byte>)
    requires AllLabels(labels) && SevenBit(labels) && Stands(pkt, pos, EncodeName(labels, tail))
    ensures var n := |EncodeName(labels, tail)| - |tail|;
            && n >= 0 && pos + n <= |pkt| && Stands(pkt, pos + n, tail)
            && forall p :: pos <= p < pos + n ==> 0 < pkt[p] < 128
  {
    hide EncodeName, AllLabels, SevenBit;
    LabelBytes(labels, tail);
    var e := EncodeName(labels, tail);
    var n := |e| - |tail|;
    assert e == e[..n] + tail;
    StandsApart(pkt, pos, e[..n], tail);
    forall p | pos <= p < pos + n ensures 0 < pkt[p] < 128 {
      assert pkt[pos + (p - pos)] == e[p - pos];
    }
  }

  /** Encoding adds a byte in front, and what ends the name, to the dotted text. */
  lemma {:induction false} EncodedLength(labels: seq<seq<byte>>, tail: seq<byte>)
    requires AllLabels(labels)
    ensures labels != [] ==> |EncodeName(labels, tail)| == 1 + |Dotted(labels)| + |tail|
    decreases |labels|
  {
    if labels != [] {
      assert IsLabel(labels[0]);
      EncodedLength(labels[1..], tail);
    }
  }

  /** The walk gets past a question that does not ask for the service: its name fits, or is passable where it does not. */
  predicate Passed(pkt: seq<byte>, pos: nat, q: Question)
    requires Encodable(q) && Stands(pkt, pos, EncodeQuestion(q))
  {
    |Dotted(q.labels)| <= NAME_MAX ||
    (NameInside(pkt, pos, q); Passable(pkt, pos + 1 + NAME_MAX, pos + 1 + |Dotted(q.labels)|))
  }

  lemma NameInside(pkt: seq<byte>, pos: nat, q: Question)
    requires Encodable(q) && Stands(pkt, pos, EncodeQuestion(q)) && |Dotted(q.labels)| > NAME_MAX
    ensures pos + 1 + |Dotted(q.labels)| <= |pkt|
  {
    EncodedLength(q.labels, q.tail);
  }

  predicate CleanText(text: seq<byte>) { 0 !in text }

  lemma {:induction false} DottedClean(labels: seq<seq<byte>>)
    requires AllLabels(labels)
    ensures CleanText(Dotted(labels))
    decreases |labels|
  {
    if labels != [] {
      assert IsLabel(labels[0]);
      DottedClean(labels[1..]);
    }
  }

  lemma {:induction false} CleanWhole(text: seq<byte>)
    requires CleanText(text)
    ensures UpToNul(text) == text
    decreases |text|
  {
    if text != [] {
      assert text[0] in text;
      forall b | b in text[1..] ensures b in text {}
      CleanWhole(text[1..]);
    }
  }

  /** Labels are recovered from the dotted text: no two names look alike. */
  lemma {:induction false} DottedInjective(a: seq<seq<byte>>, b: seq<seq<byte>>)
    requires AllLabels(a) && AllLabels(b) && Dotted(a) == Dotted(b)
    ensures a == b
    decreases |a|
  {
    if a != [] { assert IsLabel(a[0]); }
    if b != [] { assert IsLabel(b[0]); }
    if a != [] && b != [] {
      SameFirst(a, b);
      DottedLength(a);
      DottedLength(b);
      if |a| > 1 {
        assert Dotted(a[1..]) == Dotted(a)[|a[0]| + 1..] == Dotted(b)[|b[0]| + 1..] == Dotted(b[1..]);
        DottedInjective(a[1..], b[1..]);
        assert a == [a[0]] + a[1..] && b == [b[0]] + b[1..];
      } else {
        assert a == [a[0]] && b == [b[0]];
      }
    }
  }

  lemma DottedLength(labels: seq<seq<byte>>)
    requires labels != []
    ensures |labels| > 1 <==> |Dotted(labels)| > |labels[0]|
    ensures labels[0] <= Dotted(labels)
    ensures |labels| > 1 ==> Dotted(labels)[|labels[0]|] == DOT
  {
  }

  /** A first label that is longer than another first label of the same text contains a dot. */
  lemma DotInside(a: seq<seq<byte>>, b: seq<seq<byte>>)
    requires a != [] && b != [] && Dotted(a) == Dotted(b) && |b[0]| < |a[0]|
    ensures DOT in a[0]
  {
    hide Dotted;
    DottedLength(a);
    DottedLength(b);
    assert a[0][|b[0]|] == Dotted(a)[|b[0]|];
  }

  lemma SameFirst(a: seq<seq<byte>>, b: seq<seq<byte>>)
    requires a != [] && b != [] && IsLabel(a[0]) && IsLabel(b[0]) && Dotted(a) == Dotted(b)
    ensures a[0] == b[0]
  {
    hide Dotted;
    DottedLength(a);
    DottedLength(b);
    if |a[0]| < |b[0]| { DotInside(b, a); }
    if |b[0]| < |a[0]| { DotInside(a, b); }
    assert a[0] == Dotted(a)[..|a[0]|];
  }

  lemma {:induction false} AsciiConcat(a: string, b: string)
    ensures Ascii(a + b) == Ascii(a) + Ascii(b)
    decreases |a|
  {
    if a == "" {
      assert a + b == b;
    } else {
      AsciiConcat(a[1..], b);
      assert (a + b)[1..] == a[1..] + b;
    }
  }

  /** The characters of a label of a service name. */
  predicate Plain(s: string) { forall i :: 0 <= i < |s| ==> '\0' < s[i] < '\U{0080}' && s[i] != '.' }

  lemma {:induction false} PlainLabel(s: string)
    requires Plain(s)
    ensures DOT !in Ascii(s) && 0 !in Ascii(s)
    decreases |s|
  {
    if s != "" {
      PlainLabel(s[1..]);
    }
  }

  lemma ServiceNames()
    ensures Dotted(ServiceLabels()) == Ascii("_vxi-11._tcp.local") && Dotted(ShortLabels()) == Ascii("_vxi-11._tcp")
    ensures AllLabels(ServiceLabels()) && AllLabels(ShortLabels())
  {
    hide Ascii;
    var v, t, l := "_vxi-11", "_tcp", "local";
    PlainLabel(v);
    PlainLabel(t);
    PlainLabel(l);
    DotCode();
    AsciiConcat(v, ".");
    AsciiConcat(v + ".", t);
    AsciiConcat(v + "." + t, ".");
    AsciiConcat(v + "." + t + ".", l);
    assert v + "." + t + "." + l == "_vxi-11._tcp.local" && v + "." + t == "_vxi-11._tcp";
    assert ServiceLabels()[1..] == [Ascii(t), Ascii(l)] && [Ascii(t), Ascii(l)][1..] == [Ascii(l)];
    assert ShortLabels()[1..] == [Ascii(t)];
    assert Dotted([Ascii(t), Ascii(l)]) == Ascii(t) + [DOT] + Ascii(l);
    assert Dotted(ShortLabels()) == Ascii(v) + [DOT] + Ascii(t);
    assert Dotted(ServiceLabels()) == Ascii(v) + [DOT] + (Ascii(t) + [DOT] + Ascii(l));
  }

  lemma DotCode()
    ensures Ascii(".") == [DOT]
  {
    assert "."[1..] == "";
  }

  /** The labels written in the question, before any pointer, are one of the two names the responder answers for. */
  predicate AsksForService(q: Question) {
    q.qtype == 12 && (q.labels == ServiceLabels() || q.labels == ShortLabels())
  }

  lemma ServiceByLabels(labels: seq<seq<byte>>)
    requires AllLabels(labels)
    ensures IsService(UpToNul(Dotted(labels))) <==> labels == ServiceLabels() || labels == ShortLabels()
    ensures IsService(UpToNul(Dotted(labels))) ==> |Dotted(labels)| < NAME_MAX
  {
    hide Ascii, Dotted, UpToNul, IsLabel;
    DottedClean(labels);
    CleanWhole(Dotted(labels));
    ServiceNames();
    if Dotted(labels) == Dotted(ServiceLabels()) { DottedInjective(labels, ServiceLabels()); }
    if Dotted(labels) == Dotted(ShortLabels()) { DottedInjective(labels, ShortLabels()); }
  }

  /** A name that was cut is none of the two. */
  lemma CutNoService(text: seq<byte>, n: nat)
    requires CleanText(text) && 20 < n <= |text|
    ensures !IsService(UpToNul(text[..n]))
  {
    hide UpToNul, Ascii;
    assert forall b :: b in text[..n] ==> b in text;
    CleanWhole(text[..n]);
  }

  /** The name of an encoded question as the parser sees it: where it ends, whether it can be passed and whether it is the service. */
  lemma NameRead(pkt: seq<byte>, pos: nat, q: Question)
    requires Encodable(q) && Stands(pkt, pos, EncodeQuestion(q)) && |pkt| < 0x1_0000
    ensures Stands(pkt, pos, EncodeName(q.labels, q.tail))
    ensures var name := NameFrom(pkt, pos, []);
            && (name.Name? <==> Passed(pkt, pos, q))
            && (name.Name? ==>
                  && name.pos == pos + |EncodeName(q.labels, q.tail)|
                  && (IsService(UpToNul(name.text)) <==> q.labels == ServiceLabels() || q.labels == ShortLabels()))
  {
    hide NameFrom, IsService, UpToNul, EncodeName, Dotted, ServiceLabels, ShortLabels, Passable, SevenBit, AllLabels, IsTail;
    var rest := Word16(q.qtype) + Word16(q.qclass);
    assert EncodeQuestion(q) == EncodeName(q.labels, q.tail) + rest;
    StandsApart(pkt, pos, EncodeName(q.labels, q.tail), rest);
    EmptyExtended(q.labels);
    ServiceByLabels(q.labels);
    if |Dotted(q.labels)| <= NAME_MAX {
      NameDecoded(pkt, pos, q.labels, q.tail, []);
    } else {
      LongName(pkt, pos, q.labels, q.tail, []);
      EncodedLength(q.labels, q.tail);
      DottedNone();
      DottedClean(q.labels);
      CutNoService(Dotted(q.labels), NAME_MAX);
      ServiceShort();
    }
  }

  lemma DottedNone()
    ensures Dotted([]) == []
  {
  }

  lemma ServiceShort()
    ensures |Dotted(ServiceLabels())| < NAME_MAX && |Dotted(ShortLabels())| < NAME_MAX
  {
    hide Dotted;
    ServiceNames();
  }

  /** One encoded question: its name, its type, and where the next one starts. */
  lemma QuestionRead(pkt: seq<byte>, pos: nat, q: Question)
    requires Encodable(q) && Stands(pkt, pos, EncodeQuestion(q)) && |pkt| < 0x1_0000
    ensures var name := NameFrom(pkt, pos, []);
            && (name.Name? <==> Passed(pkt, pos, q))
            && (AsksForService(q) ==> name.Name?)
            && (name.Name? ==>
                  && pos <= name.pos && name.pos + 4 == pos + |EncodeQuestion(q)| <= |pkt|
                  && 256 * pkt[name.pos] as int + pkt[name.pos + 1] as int == q.qtype
                  && (IsService(UpToNul(name.text)) && q.qtype == TYPE_PTR <==> AsksForService(q)))
  {
    hide NameFrom, IsService, UpToNul, EncodeName, Dotted, ServiceLabels, ShortLabels, Passable;
    var name, kind, cls := EncodeName(q.labels, q.tail), Word16(q.qtype), Word16(q.qclass);
    assert EncodeQuestion(q) == name + (kind + cls);
    StandsApart(pkt, pos, name, kind + cls);
    var at := pos + |name|;
    StandsApart(pkt, at, kind, cls);
    assert pkt[at] == pkt[at..at + 2][0] && pkt[at + 1] == pkt[at..at + 2][1];
    NameRead(pkt, pos, q);
    ServiceShort();
  }

  /** Where question i of encoded questions starts. */
  function Start(pos: nat, qs: seq<Question>, i: nat): nat
    requires i <= |qs| && forall j :: 0 <= j < |qs| ==> Encodable(qs[j])
    decreases i
  {
    if i == 0 then pos else Start(pos + |EncodeQuestion(qs[0])|, qs[1..], i - 1)
  }

  lemma {:induction false} StartStands(pkt: seq<byte>, pos: nat, qs: seq<Question>, i: nat)
    requires (forall j :: 0 <= j < |qs| ==> Encodable(qs[j])) && i < |qs| && Stands(pkt, pos, EncodeAll(qs))
    ensures Stands(pkt, Start(pos, qs, i), EncodeQuestion(qs[i]))
    decreases i
  {
    hide EncodeQuestion, Encodable, Stands;
    StandsApart(pkt, pos, EncodeQuestion(qs[0]), EncodeAll(qs[1..]));
    if i > 0 { StartStands(pkt, pos + |EncodeQuestion(qs[0])|, qs[1..], i - 1); }
  }

  /** The walk gets as far as question i. */
  predicate Reached(pkt: seq<byte>, pos: nat, qs: seq<Question>, i: nat)
    requires (forall j :: 0 <= j < |qs| ==> Encodable(qs[j])) && i < |qs| && Stands(pkt, pos, EncodeAll(qs))
  {
    forall j :: 0 <= j < i ==> (StartStands(pkt, pos, qs, j); Passed(pkt, Start(pos, qs, j), qs[j]))
  }

  /** The walk answers yes exactly if some question asks for the service and every one before it can be passed. */
  lemma {:induction false} QuestionsAnswered(pkt: seq<byte>, pos: nat, qs: seq<Question>)
    requires (forall i :: 0 <= i < |qs| ==> Encodable(qs[i])) && |pkt| < 0x1_0000
    requires Stands(pkt, pos, EncodeAll(qs))
    ensures AnyWants(pkt, pos, |qs|) <==> exists i :: 0 <= i < |qs| && AsksForService(qs[i]) && Reached(pkt, pos, qs, i)
    decreases |qs|
  {
    hide NameFrom, IsService, UpToNul, EncodeQuestion, Dotted, AsksForService, Passed, Reached, Encodable, Stands;
    if qs != [] {
      var q, rest := qs[0], qs[1..];
      var next := pos + |EncodeQuestion(q)|;
      StandsApart(pkt, pos, EncodeQuestion(q), EncodeAll(rest));
      QuestionRead(pkt, pos, q);
      ReachedFirst(pkt, pos, qs);
      QuestionInside(pkt, pos, q);
      FirstAnswered(pkt, pos, q, |qs|);
      if Passed(pkt, pos, q) { QuestionsAnswered(pkt, next, rest); }
      forall i | 0 <= i < |rest| ensures Reached(pkt, pos, qs, i + 1) <==> Passed(pkt, pos, q) && Reached(pkt, next, rest, i) {
        ReachedNext(pkt, pos, qs, i);
      }
      if AsksForService(q) {
        assert AsksForService(qs[0]) && Reached(pkt, pos, qs, 0);
      } else if AnyWants(pkt, pos, |qs|) {
        var i :| 0 <= i < |rest| && AsksForService(rest[i]) && Reached(pkt, next, rest, i);
        assert AsksForService(qs[i + 1]) && Reached(pkt, pos, qs, i + 1);
      }
      if i :| 0 < i < |qs| && AsksForService(qs[i]) && Reached(pkt, pos, qs, i) {
        ReachedNext(pkt, pos, qs, i - 1);
        assert AsksForService(rest[i - 1]) && Reached(pkt, next, rest, i - 1);
      }
    }
  }

  /** What one question does to the walk. */
  lemma FirstAnswered(pkt: seq<byte>, pos: nat, q: Question, left: nat)
    requires Encodable(q) && Stands(pkt, pos, EncodeQuestion(q)) && |pkt| < 0x1_0000 && left > 0
    ensures AnyWants(pkt, pos, left)
            <==> AsksForService(q) || (Passed(pkt, pos, q) && AnyWants(pkt, pos + |EncodeQuestion(q)|, left - 1))
  {
    hide NameFrom, IsService, UpToNul, EncodeQuestion, AsksForService, Passed, Encodable, Stands;
    QuestionRead(pkt, pos, q);
    QuestionInside(pkt, pos, q);
  }

  lemma QuestionInside(pkt: seq<byte>, pos: nat, q: Question)
    requires Encodable(q) && Stands(pkt, pos, EncodeQuestion(q))
    ensures pos + 4 <= pos + |EncodeQuestion(q)| <= |pkt|
  {
    hide EncodeName;
  }

  lemma ReachedFirst(pkt: seq<byte>, pos: nat, qs: seq<Question>)
    requires (forall j :: 0 <= j < |qs| ==> Encodable(qs[j])) && qs != [] && Stands(pkt, pos, EncodeAll(qs))
    ensures Reached(pkt, pos, qs, 0)
  {
  }

  lemma ReachedNext(pkt: seq<byte>, pos: nat, qs: seq<Question>, i: nat)
    requires (forall j :: 0 <= j < |qs| ==> Encodable(qs[j])) && i + 1 < |qs| && Stands(pkt, pos, EncodeAll(qs))
    ensures Stands(pkt, pos, EncodeQuestion(qs[0])) && Stands(pkt, pos + |EncodeQuestion(qs[0])|, EncodeAll(qs[1..]))
    ensures Reached(pkt, pos, qs, i + 1)
            <==> Passed(pkt, pos, qs[0]) && Reached(pkt, pos + |EncodeQuestion(qs[0])|, qs[1..], i)
  {
    hide EncodeQuestion, Encodable, Stands, Passed;
    var next, rest := pos + |EncodeQuestion(qs[0])|, qs[1..];
    StandsApart(pkt, pos, EncodeQuestion(qs[0]), EncodeAll(rest));
    forall j | 0 <= j < |rest| ensures Start(pos, qs, j + 1) == Start(next, rest, j) && qs[j + 1] == rest[j] {
    }
    if Passed(pkt, pos, qs[0]) && Reached(pkt, next, rest, i) {
      forall j | 0 <= j < i + 1 ensures (StartStands(pkt, pos, qs, j); Passed(pkt, Start(pos, qs, j), qs[j])) {
        StartStands(pkt, pos, qs, j);
        if j > 0 { StartStands(pkt, next, rest, j - 1); }
      }
    }
    if Reached(pkt, pos, qs, i + 1) {
      StartStands(pkt, pos, qs, 0);
      assert Start(pos, qs, 0) == pos;
      forall j | 0 <= j < i ensures (StartStands(pkt, next, rest, j); Passed(pkt, Start(next, rest, j), rest[j])) {
        StartStands(pkt, next, rest, j);
        StartStands(pkt, pos, qs, j + 1);
      }
    }
  }

  lemma EmptyExtended(labels: seq<seq<byte>>)
    ensures Extended([], labels) == Dotted(labels)
  {
  }

  /**
   * An encoded message of any questions, whatever its other header fields and whatever
   * follows the questions, is wanted exactly when it is a query, some question asks for the
   * service and every question before it has a name that fits the name buffer or can be passed.
   */
  lemma QueryAnswered(pkt: seq<byte>, qs: seq<Question>)
    requires forall i :: 0 <= i < |qs| ==> Encodable(qs[i])
    requires 12 <= |pkt| < 0x1_0000
    requires |qs| < 0x1_0000 && 256 * pkt[4] as int + pkt[5] as int == |qs|
    requires Stands(pkt, 12, EncodeAll(qs))
    ensures Wants(pkt) <==> pkt[2] < 0x80 && exists i :: 0 <= i < |qs| && AsksForService(qs[i]) && Reached(pkt, 12, qs, i)
  {
    hide AnyWants, EncodeAll, Stands, Encodable, AsksForService, Reached;
    QuestionsAnswered(pkt, 12, qs);
  }

  /** A question that breaks off before its type and class is not answered, nor is a message that breaks off in its header. */
  lemma BrokenOff(pkt: seq<byte>, pos: nat, labels: seq<seq<byte>>, tail: seq<byte>, left: nat)
    requires AllLabels(labels) && IsTail(tail) && |pkt| < 0x1_0000 && |Dotted(labels)| <= NAME_MAX
    requires Stands(pkt, pos, EncodeName(labels, tail)) && pos + |EncodeName(labels, tail)| + 4 > |pkt|
    ensures !AnyWants(pkt, pos, left)
    ensures |pkt| < 12 ==> !Wants(pkt)
  {
    hide NameFrom, EncodeName, IsService, UpToNul;
    EmptyExtended(labels);
    NameDecoded(pkt, pos, labels, tail, []);
  }

  // ------------------------------------------------------------ queries that are not answered

  /** A name one label and one character too long for the name buffer: whether it is passed depends on that character and on what follows. */
  lemma OneMoreCharacter(pkt: seq<byte>, pos: nat, q: Question, l: seq<byte>, c: byte)
    requires q.labels == [l, [c]] && |l| == 63 && Encodable(q) && Stands(pkt, pos, EncodeQuestion(q))
    ensures |Dotted(q.labels)| == 65 && !AsksForService(q)
    ensures Passed(pkt, pos, q) <==> c <= 63 && pos + 66 + c <= |pkt|
  {
    hide ServiceLabels, ShortLabels, EncodeName, Stands, SevenBit;
    assert q.labels[1..] == [[c]];
    assert Dotted(q.labels) == l + [DOT] + [c];
    ServiceShort();
    NameInside(pkt, pos, q);
    var rest := Word16(q.qtype) + Word16(q.qclass);
    assert EncodeQuestion(q) == EncodeName(q.labels, q.tail) + rest;
    StandsApart(pkt, pos, EncodeName(q.labels, q.tail), rest);
    LastBytes(pkt, pos, l, c, q.tail);
    QuestionInside(pkt, pos, q);
  }

  lemma LastBytes(pkt: seq<byte>, pos: nat, l: seq<byte>, c: byte, tail: seq<byte>)
    requires AllLabels([l, [c]]) && |l| == 63 && tail != [] && Stands(pkt, pos, EncodeName([l, [c]], tail))
    ensures pos + 66 < |pkt| && pkt[pos + 64] == 1 && pkt[pos + 65] == c
  {
    var labels := [l, [c]];
    assert IsLabel(labels[0]) && IsLabel(labels[1]);
    assert labels[1..] == [[c]] && |labels| == 2;
    assert EncodeName([[c]], tail) == [1 as byte] + [c] + tail;
    assert EncodeName(labels, tail) == ([63 as byte] + l) + ([1 as byte, c] + tail);
    StandsApart(pkt, pos, [63 as byte] + l, [1 as byte, c] + tail);
    StandsApart(pkt, pos + 64, [1 as byte, c], tail);
    assert pkt[pos + 64 + 0] == 1 && pkt[pos + 64 + 1] == c;
  }

  /** A query of these questions. */
  function EncodeQuery(qs: seq<Question>): seq<byte>
    requires (forall i :: 0 <= i < |qs| ==> Encodable(qs[i])) && |qs| < 0x1_0000
  {
    [0, 0, 0, 0] + Word16(|qs|) + [0, 0, 0, 0, 0, 0] + EncodeAll(qs)
  }

  lemma QueryFields(qs: seq<Question>)
    requires (forall i :: 0 <= i < |qs| ==> Encodable(qs[i])) && |qs| < 0x1_0000
    ensures var pkt := EncodeQuery(qs);
            && |pkt| == 12 + |EncodeAll(qs)| && pkt[2] == 0 && 256 * pkt[4] as int + pkt[5] as int == |qs|
            && Stands(pkt, 12, EncodeAll(qs))
  {
    hide EncodeAll, Word16;
  }

  lemma TwoQuestions(a: Question, b: Question)
    requires Encodable(a) && Encodable(b)
    ensures var qs := [a, b];
            && EncodeAll(qs) == EncodeQuestion(a) + EncodeQuestion(b)
            && |EncodeQuestion(a)| == |EncodeName(a.labels, a.tail)| + 4 && |EncodeQuestion(b)| == |EncodeName(b.labels, b.tail)| + 4
  {
    hide EncodeName, Encodable;
    var qs := [a, b];
    assert qs[1..] == [b] && |qs[1..][1..]| == 0;
    assert EncodeAll([b]) == EncodeQuestion(b) + [];
  }

  /** Behind a name of a 63-character label and one letter, a question for the service is not answered, whatever else the query holds. */
  lemma LongNameHides(pkt: seq<byte>, qs: seq<Question>, l: seq<byte>, c: byte)
    requires forall i :: 0 <= i < |qs| ==> Encodable(qs[i])
    requires 12 <= |pkt| < 0x1_0000 && pkt[2] < 0x80
    requires |qs| < 0x1_0000 && 256 * pkt[4] as int + pkt[5] as int == |qs|
    requires Stands(pkt, 12, EncodeAll(qs))
    requires qs != [] && qs[0].labels == [l, [c]] && |l| == 63 && c >= 64
    ensures !Wants(pkt)
  {
    hide Wants, Encodable, AsksForService, Passed, EncodeQuestion, Dotted;
    QueryAnswered(pkt, qs);
    StartStands(pkt, 12, qs, 0);
    OneMoreCharacter(pkt, 12, qs[0], l, c);
    forall i | 0 < i < |qs| ensures !Reached(pkt, 12, qs, i) {
      assert Start(12, qs, 0) == 12;
      StartStands(pkt, 12, qs, 0);
    }
  }

  function LongLabel(): (l: seq<byte>)
    ensures |l| == 63 && forall i :: 0 <= i < 63 ==> l[i] == 97
  {
    seq(63, (_: int) => 97 as byte)
  }

  function LongQuestion(): Question { Question([LongLabel(), [98]], [0], TYPE_PTR, 1) }

  function ServiceQuestion(): Question { Question(ServiceLabels(), [0], TYPE_PTR, 1) }

  lemma LongEncodable()
    ensures Encodable(LongQuestion()) && |EncodeName(LongQuestion().labels, [0])| == 67
  {
    hide LongLabel, Dotted, EncodeName;
    var l := LongLabel();
    assert IsLabel(l) && IsLabel([98]);
    EncodedLength([l, [98]], [0]);
    DottedTwo(l, [98]);
  }

  lemma ServiceEncodable()
    ensures Encodable(ServiceQuestion()) && AsksForService(ServiceQuestion()) && |EncodeName(ServiceLabels(), [0])| < 100
  {
    hide Dotted, ServiceLabels, ShortLabels, EncodeName;
    ServiceNames();
    ServiceShort();
    EncodedLength(ServiceLabels(), [0]);
    NotEmptyService();
  }

  /** Such a query: a name of 65 characters, well within the 255 of section 2.3.4, and then the service. */
  lemma LongNameExample()
    ensures Encodable(LongQuestion()) && Encodable(ServiceQuestion()) && AsksForService(ServiceQuestion())
    ensures !Wants(EncodeQuery([LongQuestion(), ServiceQuestion()]))
  {
    hide Wants, EncodeQuery, Encodable, AsksForService, EncodeAll, EncodeName, EncodeQuestion, LongLabel, ServiceLabels, Stands;
    LongEncodable();
    ServiceEncodable();
    TwoQuestions(LongQuestion(), ServiceQuestion());
    QueryFields([LongQuestion(), ServiceQuestion()]);
    LongNameHides(EncodeQuery([LongQuestion(), ServiceQuestion()]), [LongQuestion(), ServiceQuestion()], LongLabel(), 98);
  }

  lemma DottedTwo(a: seq<byte>, b: seq<byte>)
    ensures Dotted([a, b]) == a + [DOT] + b
  {
    assert [a, b][1..] == [b];
  }

  lemma NotEmptyService()
    ensures ServiceLabels() != []
  {
  }

  /** A pointer is passed but not followed: the same name, its end compressed to a pointer at "_tcp.local", is not recognised. */
  lemma CompressedExample()
    ensures var tcp := Question([Ascii("_tcp"), Ascii("local")], [0], TYPE_PTR, 1);
            var vxi := Question([Ascii("_vxi-11")], [0xC0, 12], TYPE_PTR, 1);
            && Encodable(tcp) && Encodable(vxi) && [Ascii("_vxi-11")] + tcp.labels == ServiceLabels()
            && Stands(EncodeQuery([tcp, vxi]), 12, EncodeName(tcp.labels, tcp.tail))
            && !Wants(EncodeQuery([tcp, vxi]))
  {
    hide Wants, EncodeQuery, Ascii, EncodeAll, EncodeName, IsLabel, Reached, Dotted, Stands;
    ServiceNames();
    var tcp := Question([Ascii("_tcp"), Ascii("local")], [0], TYPE_PTR, 1);
    var vxi := Question([Ascii("_vxi-11")], [0xC0, 12], TYPE_PTR, 1);
    assert IsLabel(ServiceLabels()[0]) && IsLabel(ServiceLabels()[1]) && IsLabel(ServiceLabels()[2]);
    DottedTwo(Ascii("_tcp"), Ascii("local"));
    DottedOne(Ascii("_vxi-11"));
    TwoQuestions(tcp, vxi);
    EncodedLength(tcp.labels, tcp.tail);
    EncodedLength(vxi.labels, vxi.tail);
    QueryFields([tcp, vxi]);
    var pkt := EncodeQuery([tcp, vxi]);
    QueryAnswered(pkt, [tcp, vxi]);
    FirstName(pkt, tcp, vxi);
    AsciiDifferent();
  }

  lemma DottedOne(a: seq<byte>)
    ensures Dotted([a]) == a
  {
  }

  lemma FirstName(pkt: seq<byte>, a: Question, b: Question)
    requires Encodable(a) && Encodable(b) && Stands(pkt, 12, EncodeAll([a, b]))
    ensures Stands(pkt, 12, EncodeName(a.labels, a.tail))
  {
    hide EncodeName, Stands, Word16, SevenBit, AllLabels, Dotted;
    TwoQuestions(a, b);
    StandsApart(pkt, 12, EncodeQuestion(a), EncodeQuestion(b));
    assert EncodeQuestion(a) == EncodeName(a.labels, a.tail) + (Word16(a.qtype) + Word16(a.qclass));
    StandsApart(pkt, 12, EncodeName(a.labels, a.tail), Word16(a.qtype) + Word16(a.qclass));
  }

  lemma AsciiDifferent()
    ensures Ascii("_tcp") != Ascii("_vxi-11")
  {
    assert |Ascii("_tcp")| == 4 && |Ascii("_vxi-11")| == 7;
  }
}
