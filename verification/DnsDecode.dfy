/** Decoding compressed names: what a name in a message means, and the recursive decoder. */
module DnsDecode {
  import opened Bits
  import opened DnsNames

  /** is_pointer: both bits of the mask 0xC0 are set. */
  predicate IsPointer(b: byte) {
    BitSet(b, 0x80) && BitSet(b, 0x40)
  }

  lemma PointerRange(b: byte)
    ensures IsPointer(b) <==> b >= 192
  {
  }

  /** Who follows a pointer: the standard, or the code. */
  datatype Reader = Rfc | Code

  /**
   The offset a pointer leads to: the 14 bits of section 4.1.4 of RFC 1035 for the standard, the
   second octet alone for the code.
   */
  function Target(v: Reader, b0: byte, b1: byte): int {
    match v
    case Rfc => (b0 - 192) * 256 + b1
    case Code => b1
  }

  /** The code follows a pointer to the right place exactly when its target is below 256. */
  lemma CodeTargetExact(b0: byte, b1: byte)
    requires IsPointer(b0)
    ensures Target(Code, b0, b1) == Target(Rfc, b0, b1) <==> Target(Rfc, b0, b1) < 256
  {
    PointerRange(b0);
  }

  /**
   The octets at `p` form a name whose current segment starts at `start`: labels up to a zero octet,
   or up to a pointer strictly before `start`.
   */
  predicate WellFormed(v: Reader, m: Bytes, p: nat, start: nat)
    decreases start, |m| - p
  {
    p < |m| &&
    var flag := m[p];
    if flag == 0 then true
    else if IsPointer(flag) then
      p + 1 < |m| &&
      var target := Target(v, flag, m[p + 1]);
      0 <= target < start && WellFormed(v, m, target, target)
    else p + 1 + flag < |m| && WellFormed(v, m, p + 1 + flag, start)
  }

  /** The labels of the name, pointers expanded. */
  function LabelsAt(v: Reader, m: Bytes, p: nat, start: nat): Labels
    requires WellFormed(v, m, p, start)
    decreases start, |m| - p
  {
    var flag := m[p];
    if flag == 0 then []
    else if IsPointer(flag) then
      var target := Target(v, flag, m[p + 1]);
      LabelsAt(v, m, target, target)
    else
      var next := p + 1 + flag;
      [m[p + 1..next]] + LabelsAt(v, m, next, start)
  }

  /** Every pointer on the way leads below 256. */
  predicate NearPointers(m: Bytes, p: nat, start: nat)
    requires WellFormed(Rfc, m, p, start)
    decreases start, |m| - p
  {
    var flag := m[p];
    if flag == 0 then true
    else if IsPointer(flag) then
      var target := Target(Rfc, flag, m[p + 1]);
      target < 256 && NearPointers(m, target, target)
    else NearPointers(m, p + 1 + flag, start)
  }

  /** With near pointers the code reads the labels the standard means. */
  lemma {:induction false} CodeReadsRfc(m: Bytes, p: nat, start: nat)
    requires WellFormed(Rfc, m, p, start) && NearPointers(m, p, start)
    ensures WellFormed(Code, m, p, start) && LabelsAt(Code, m, p, start) == LabelsAt(Rfc, m, p, start)
    decreases start, |m| - p
  {
    var flag := m[p];
    if flag != 0 {
      if IsPointer(flag) {
        var target := Target(Rfc, flag, m[p + 1]);
        CodeTargetExact(flag, m[p + 1]);
        CodeReadsRfc(m, target, target);
      } else {
        CodeReadsRfc(m, p + 1 + flag, start);
      }
    }
  }

  /** A legal message with one pointer to offset 256: the standard reads one label, the code none. */
  lemma FarPointerIsMisread() returns (m: Bytes)
    ensures WellFormed(Rfc, m, 259, 259) && LabelsAt(Rfc, m, 259, 259) == [[0x61]]
    ensures WellFormed(Code, m, 259, 259) && LabelsAt(Code, m, 259, 259) == []
  {
    m := seq(256, _ => 0) + [1, 0x61, 0, 0xC1, 0x00];
    PointerRange(0xC1);
    PointerRange(1);
    assert m[256] == 1 && m[257] == 0x61 && m[258] == 0 && m[259] == 0xC1 && m[260] == 0 && m[0] == 0;
    assert WellFormed(Rfc, m, 258, 256) && LabelsAt(Rfc, m, 258, 256) == [];
    assert m[257..258] == [0x61];
    assert LabelsAt(Rfc, m, 256, 256) == [[0x61]];
    assert Target(Rfc, 0xC1, 0) == 256 && Target(Code, 0xC1, 0) == 0;
  }

  /** The last label is followed by a pointer chain to a root octet instead of a zero octet. */
  predicate Dangling(v: Reader, m: Bytes, p: nat, start: nat)
    requires WellFormed(v, m, p, start)
    decreases start, |m| - p
  {
    var flag := m[p];
    if flag == 0 then false
    else if IsPointer(flag) then
      var target := Target(v, flag, m[p + 1]);
      Dangling(v, m, target, target)
    else
      var next := p + 1 + flag;
      if LabelsAt(v, m, next, start) == [] then m[next] != 0 else Dangling(v, m, next, start)
  }

  lemma {:induction false} NoLabels(v: Reader, m: Bytes, p: nat, start: nat)
    requires WellFormed(v, m, p, start)
    ensures m[p] == 0 ==> LabelsAt(v, m, p, start) == []
    ensures LabelsAt(v, m, p, start) == [] ==> !Dangling(v, m, p, start)
    decreases start, |m| - p
  {
    if m[p] != 0 && IsPointer(m[p]) {
      var target := Target(v, m[p], m[p + 1]);
      NoLabels(v, m, target, target);
    }
  }

  /** What the decoder appends: the dotted labels, and a stray dot if the name dangles. */
  function DecodedText(m: Bytes, p: nat, start: nat): Bytes
    requires WellFormed(Code, m, p, start)
  {
    Join(LabelsAt(Code, m, p, start)) + if Dangling(Code, m, p, start) then [DOT] else []
  }

  /** The dotted text the standard means by the name at `p`. */
  function NameText(m: Bytes, p: nat): Bytes
    requires WellFormed(Rfc, m, p, p)
  {
    Join(LabelsAt(Rfc, m, p, p))
  }

  /** For near pointers the decoded text is the dotted name exactly when the name does not dangle. */
  lemma DecodedIsName(m: Bytes, p: nat)
    requires WellFormed(Rfc, m, p, p) && NearPointers(m, p, p)
    ensures WellFormed(Code, m, p, p)
    ensures DecodedText(m, p, p) == NameText(m, p) <==> !Dangling(Code, m, p, p)
  {
    CodeReadsRfc(m, p, p);
    assert |DecodedText(m, p, p)| == |NameText(m, p)| + if Dangling(Code, m, p, p) then 1 else 0;
  }

  /** A legal message whose name the code decodes to "a." where the standard means "a". */
  lemma DanglingNameIsMisread() returns (m: Bytes)
    ensures WellFormed(Rfc, m, 1, 1) && NearPointers(m, 1, 1) && WellFormed(Code, m, 1, 1) && Dangling(Code, m, 1, 1)
    ensures NameText(m, 1) == [0x61] && DecodedText(m, 1, 1) == [0x61, DOT]
  {
    m := [0, 1, 0x61, 0xC0, 0x00];
    PointerRange(1);
    PointerRange(0xC0);
    assert Target(Rfc, 0xC0, 0) == 0 == Target(Code, 0xC0, 0);
    RootCase(Rfc, m, 0, 0);
    RootCase(Code, m, 0, 0);
    assert WellFormed(Rfc, m, 3, 1) && LabelsAt(Rfc, m, 3, 1) == [] && NearPointers(m, 3, 1);
    assert WellFormed(Code, m, 3, 1) && LabelsAt(Code, m, 3, 1) == [];
    LabelCase(Rfc, m, 1, 3, 1);
    LabelCase(Code, m, 1, 3, 1);
    assert m[2..3] == [0x61];
    var one: Labels := [[0x61]];
    assert LabelsAt(Rfc, m, 1, 1) == one && LabelsAt(Code, m, 1, 1) == one && Join(one) == [0x61];
  }

  // ------------------------------------------------------------------ size

  /** The octets of the expanded wire form: one length octet per label and the root. */
  function WireLength(labels: Labels): nat {
    if labels == [] then 1 else 1 + |labels[0]| + WireLength(labels[1..])
  }

  /** The limits of section 2.3.4 of RFC 1035: labels of at most 63 octets, names of at most 255. */
  predicate Legal(labels: Labels) {
    WireLength(labels) <= 255 && forall l :: l in labels ==> 0 < |l| <= 63
  }

  /** The dotted text is two octets shorter than the wire form, or empty for the root. */
  lemma {:induction false} TextLength(labels: Labels)
    ensures |Join(labels)| == if labels == [] then 0 else WireLength(labels) - 2
  {
    if |labels| > 1 {
      TextLength(labels[1..]);
    } else if |labels| == 1 {
      assert labels[1..] == [];
    }
  }

  /**
   A name within the limit of section 2.3.4 of RFC 1035 has at most 253 octets of text, and decodes
   to at most one more.
   */
  lemma TextLimit(m: Bytes, p: nat)
    requires WellFormed(Rfc, m, p, p) && NearPointers(m, p, p) && WireLength(LabelsAt(Rfc, m, p, p)) <= 255
    ensures |NameText(m, p)| <= 253
    ensures WellFormed(Code, m, p, p) && |DecodedText(m, p, p)| <= if Dangling(Code, m, p, p) then 254 else 253
  {
    CodeReadsRfc(m, p, p);
    TextLength(LabelsAt(Rfc, m, p, p));
  }

  // ------------------------------------------------------------------ the decoder

  /** memcpy out of the message into the output. */
  method CopyOut(chunk: array<byte>, from: nat, n: nat, out: array<byte>, at: nat)
    requires chunk != out && from + n <= chunk.Length && at + n <= out.Length
    modifies out
    ensures out[..] == Spliced(old(out[..]), at, chunk[from..from + n])
  {
    forall k | 0 <= k < n {
      out[at + k] := chunk[from + k];
    }
  }

  /** Where the label at `p` ends. */
  function Next(m: Bytes, p: nat): nat
    requires p < |m|
  {
    p + 1 + m[p]
  }

  /** What one label contributes to the text: its octets, and a dot unless the name ends behind it. */
  function Piece(m: Bytes, p: nat): Bytes
    requires p < |m| && Next(m, p) < |m|
  {
    m[p + 1..Next(m, p)] + if m[Next(m, p)] != 0 then [DOT] else []
  }

  lemma LabelStep(m: Bytes, p: nat, start: nat)
    requires WellFormed(Code, m, p, start) && m[p] != 0 && !IsPointer(m[p])
    ensures Next(m, p) < |m| && WellFormed(Code, m, Next(m, p), start)
    ensures DecodedText(m, p, start) == Piece(m, p) + DecodedText(m, Next(m, p), start)
  {
    var next := Next(m, p);
    LabelCase(Code, m, p, next, start);
    NoLabels(Code, m, next, start);
    TextOfLabel(m[p + 1..next], LabelsAt(Code, m, next, start), Dangling(Code, m, next, start), m[next] != 0);
  }

  /** A label in front of the rest of a name: where the dots go. */
  lemma TextOfLabel(octets: Bytes, rest: Labels, dangling: bool, more: bool)
    requires rest != [] ==> more
    requires rest == [] ==> !dangling
    ensures Join([octets] + rest) + (if (if rest == [] then more else dangling) then [DOT] else [])
         == (octets + if more then [DOT] else []) + (Join(rest) + if dangling then [DOT] else [])
  {
    var dot: Bytes := if dangling then [DOT] else [];
    JoinCons(octets, rest);
    if rest != [] {
      Regroup(octets + [DOT], Join(rest), dot);
      Regroup(octets, [DOT], Join(rest));
    } else {
      assert Join(rest) + dot == [];
    }
  }

  lemma PointerStep(m: Bytes, p: nat, start: nat)
    requires WellFormed(Code, m, p, start) && m[p] != 0 && IsPointer(m[p])
    ensures p + 1 < |m|
    ensures var n := m[p + 1];
      n < start && WellFormed(Code, m, n, n) && DecodedText(m, n, n) == DecodedText(m, p, start)
  {
  }

  /**
   dnsParseName: appends the text of the name at `ptr` to `out` behind its first `len` octets and
   returns the new length; everything outside that stretch is untouched.  The code never asks how
   large `out` is: `ok` says that no write leaves it, and the run of the code ends at one that would.
   */
  method ParseName(chunk: array<byte>, ghost m: Bytes, ptr: nat, ghost start: nat, out: array<byte>, len: nat)
    returns (ok: bool, len': nat)
    requires chunk != out && m == chunk[..] && WellFormed(Code, m, ptr, start) && len <= out.Length
    modifies out
    ensures ok <==> len + |DecodedText(m, ptr, start)| <= out.Length
    ensures ok ==> len' == len + |DecodedText(m, ptr, start)|
    ensures ok ==> out[..] == Spliced(old(out[..]), len, DecodedText(m, ptr, start))
    decreases start, 1
  {
    ghost var before := out[..];
    ghost var emitted: Bytes, left := [], DecodedText(m, ptr, start);
    ghost var text := left;
    var p := ptr;
    ok, len' := true, len;
    while true
      invariant ok && chunk[..] == m && WellFormed(Code, m, p, start) && left == DecodedText(m, p, start)
      invariant text == emitted + left && len' == len + |emitted| <= out.Length
      invariant out[..] == Spliced(before, len, emitted)
      decreases |m| - p
    {
      var flag := chunk[p];
      if flag == 0 {
        NoLabels(Code, m, p, start);
        assert left == [] && text == emitted;
        return;
      }
      if IsPointer(flag) {
        ok, len' := FollowPointer(chunk, m, p, start, out, len', before, len, emitted);
        return;
      }
      ok, p, len', emitted, left := TakeLabel(chunk, m, p, start, out, len', before, len, emitted);
      if !ok {
        return;
      }
    }
  }

  /** Lines 232-243: the text grows by one label, the rest of the name shrinks by it. */
  method TakeLabel(chunk: array<byte>, ghost m: Bytes, p: nat, ghost start: nat, out: array<byte>, len: nat,
                   ghost before: Bytes, ghost at: nat, ghost emitted: Bytes)
    returns (ok: bool, p': nat, len': nat, ghost emitted': Bytes, ghost left: Bytes)
    requires chunk != out && m == chunk[..] && WellFormed(Code, m, p, start) && chunk[p] != 0 && !IsPointer(chunk[p])
    requires len == at + |emitted| <= out.Length == |before|
    requires out[..] == Spliced(before, at, emitted)
    modifies out
    ensures !ok ==> len + |DecodedText(m, p, start)| > out.Length
    ensures ok ==> p < p' && WellFormed(Code, m, p', start) && left == DecodedText(m, p', start)
    ensures ok ==> emitted' + left == emitted + DecodedText(m, p, start) && len' == at + |emitted'|
    ensures ok ==> at + |emitted'| <= out.Length && out[..] == Spliced(before, at, emitted')
  {
    LabelStep(m, p, start);
    ghost var piece := Piece(m, p);
    ok, p', len' := ParseLabel(chunk, p, out, len);
    left, emitted' := DecodedText(m, Next(m, p), start), emitted + piece;
    if ok {
      SplicedTwice(before, at, emitted, piece);
      Regroup(emitted, piece, left);
    }
  }

  /** Lines 223-226: the rest of the name is whatever the pointer leads to. */
  method FollowPointer(chunk: array<byte>, ghost m: Bytes, p: nat, ghost start: nat, out: array<byte>, len: nat,
                       ghost before: Bytes, ghost at: nat, ghost emitted: Bytes) returns (ok: bool, len': nat)
    requires chunk != out && m == chunk[..] && WellFormed(Code, m, p, start) && chunk[p] != 0 && IsPointer(chunk[p])
    requires len == at + |emitted| <= out.Length == |before|
    requires out[..] == Spliced(before, at, emitted)
    modifies out
    ensures ok <==> len + |DecodedText(m, p, start)| <= out.Length
    ensures ok ==> len' == len + |DecodedText(m, p, start)|
    ensures ok ==> out[..] == Spliced(before, at, emitted + DecodedText(m, p, start))
    decreases start, 0
  {
    PointerStep(m, p, start);
    var n := chunk[p + 1];
    ok, len' := ParseName(chunk, m, n, n, out, len);
    if ok {
      SplicedTwice(before, at, emitted, DecodedText(m, p, start));
    }
  }

  /** The octets of one label, and a dot unless the next octet is zero. */
  method ParseLabel(chunk: array<byte>, p: nat, out: array<byte>, len: nat) returns (ok: bool, p': nat, len': nat)
    requires chunk != out && p < chunk.Length && Next(chunk[..], p) < chunk.Length && len <= out.Length
    modifies out
    ensures ok <==> len + |Piece(chunk[..], p)| <= out.Length
    ensures ok ==> p' == Next(chunk[..], p) && len' == len + |Piece(chunk[..], p)|
    ensures ok ==> out[..] == Spliced(old(out[..]), len, Piece(chunk[..], p))
  {
    var flag := chunk[p];
    p' := p + 1;
    if len + flag > out.Length {
      return false, p', len;
    }
    CopyOut(chunk, p', flag, out, len);
    p', len' := p' + flag, len + flag;
    ghost var before, octets := old(out[..]), chunk[p + 1..p'];
    assert octets == chunk[..][p + 1..p'];
    ok, len' := Separate(chunk, p', out, len', before, len, octets);
  }

  /** Lines 238-243. */
  method Separate(chunk: array<byte>, p: nat, out: array<byte>, len: nat,
                  ghost before: Bytes, ghost at: nat, ghost octets: Bytes)
    returns (ok: bool, len': nat)
    requires chunk != out && p < chunk.Length && at + |octets| == len <= out.Length == |before|
    requires out[..] == Spliced(before, at, octets)
    modifies out
    ensures ok <==> chunk[p] != 0 ==> len < out.Length
    ensures ok ==> len' == len + if chunk[p] != 0 then 1 else 0
    ensures ok ==> out[..] == Spliced(before, at, octets + if chunk[p] != 0 then [DOT] else [])
  {
    ok, len' := true, len;
    assert octets + [] == octets;
    if chunk[p] != 0 {
      if len' == out.Length {
        return false, len';
      }
      PutDot(out, len');
      len' := len' + 1;
      SplicedTwice(before, at, octets, [DOT]);
    }
  }

  method PutDot(out: array<byte>, at: nat)
    requires at < out.Length
    modifies out
    ensures out[..] == Spliced(old(out[..]), at, [DOT])
  {
    out[at] := DOT;
  }

  // ------------------------------------------------------------------ encoded names

  /** Labels the length octet can express without looking like a pointer or the end. */
  predicate Encodable(labels: Labels) {
    forall l :: l in labels ==> 0 < |l| < 192
  }

  lemma LengthOctetIsLabel(n: nat)
    requires 0 < n < 192
    ensures LengthOctet(n) == n && LengthOctet(n) != 0 && !IsPointer(LengthOctet(n))
  {
    PointerRange(LengthOctet(n));
  }

  lemma RootCase(v: Reader, m: Bytes, p: nat, start: nat)
    requires p < |m| && m[p] == 0
    ensures WellFormed(v, m, p, start) && LabelsAt(v, m, p, start) == [] && !Dangling(v, m, p, start)
  {
  }

  lemma LabelCase(v: Reader, m: Bytes, p: nat, next: nat, start: nat)
    requires p < next < |m| && m[p] != 0 && !IsPointer(m[p]) && m[p] == next - p - 1
    requires WellFormed(v, m, next, start)
    ensures WellFormed(v, m, p, start)
    ensures LabelsAt(v, m, p, start) == [m[p + 1..next]] + LabelsAt(v, m, next, start)
    ensures Dangling(v, m, p, start)
        <==> if LabelsAt(v, m, next, start) == [] then m[next] != 0 else Dangling(v, m, next, start)
  {
  }

  /** The same for the first of the labels the encoder wrote. */
  lemma WrittenLabel(v: Reader, m: Bytes, p: nat, labels: Labels, tail: Bytes, start: nat)
    requires labels != [] && Encodable(labels) && tail != [] && HasAt(m, p, Encode(labels) + tail)
    requires WellFormed(v, m, p + 1 + |labels[0]|, start)
    ensures var next := p + 1 + |labels[0]|;
      && next < |m| && WellFormed(v, m, p, start)
      && LabelsAt(v, m, p, start) == [labels[0]] + LabelsAt(v, m, next, start)
      && (Dangling(v, m, p, start) <==>
            if LabelsAt(v, m, next, start) == [] then m[next] != 0 else Dangling(v, m, next, start))
  {
    EncodedThen(m, p, labels, tail);
    assert labels[0] in labels;
    LengthOctetIsLabel(|labels[0]|);
    LabelCase(v, m, p, p + 1 + |labels[0]|, start);
  }

  /** The labels behind the first one. */
  lemma WrittenRest(m: Bytes, p: nat, labels: Labels, tail: Bytes)
    requires labels != [] && Encodable(labels) && tail != [] && HasAt(m, p, Encode(labels) + tail)
    ensures var l, rest := labels[0], labels[1..];
      && labels == [l] + rest && Encodable(rest)
      && p + 1 + |l| < |m| && HasAt(m, p + 1 + |l|, Encode(rest) + tail)
      && (rest == [] ==> m[p + 1 + |l|] == tail[0])
  {
    EncodedThen(m, p, labels, tail);
    assert labels == [labels[0]] + labels[1..];
    if labels[1..] == [] {
      assert HasAt(m, p + 1 + |labels[0]|, tail) && tail[0] == tail[0];
    }
  }

  /** An encoded name is well formed wherever it stands, and reads back as its labels. */
  lemma {:induction false} EncodedReadsBack(v: Reader, m: Bytes, p: nat, labels: Labels, start: nat)
    requires Encodable(labels) && HasAt(m, p, Encode(labels) + [0])
    ensures WellFormed(v, m, p, start) && LabelsAt(v, m, p, start) == labels && !Dangling(v, m, p, start)
    decreases |labels|
  {
    if labels == [] {
      EncodedAt(m, p, labels);
      RootCase(v, m, p, start);
    } else {
      var l, rest, zero: Bytes := labels[0], labels[1..], [0];
      assert zero[0] == 0;
      WrittenRest(m, p, labels, zero);
      EncodedReadsBack(v, m, p + 1 + |l|, rest, start);
      WrittenLabel(v, m, p, labels, zero, start);
    }
  }

  lemma PointerCase(v: Reader, m: Bytes, p: nat, t: byte, start: nat)
    requires p + 1 < |m| && m[p] == 0xC0 && m[p + 1] == t < start && WellFormed(v, m, t, t)
    ensures WellFormed(v, m, p, start) && LabelsAt(v, m, p, start) == LabelsAt(v, m, t, t)
    ensures Dangling(v, m, p, start) == Dangling(v, m, t, t)
  {
    PointerRange(0xC0);
  }

  /**
   A compressed name, labels and then a pointer to offset `t`, reads back as those labels followed
   by the ones at `t`, and dangles exactly when it has labels of its own and leads to the root.
   */
  lemma {:induction false} CompressedReadsBack(v: Reader, m: Bytes, p: nat, labels: Labels, t: byte, start: nat)
    requires Encodable(labels) && HasAt(m, p, Encode(labels) + [0xC0, t]) && t < start && WellFormed(v, m, t, t)
    ensures WellFormed(v, m, p, start) && LabelsAt(v, m, p, start) == labels + LabelsAt(v, m, t, t)
    ensures Dangling(v, m, p, start)
        <==> if LabelsAt(v, m, t, t) == [] then labels != [] else Dangling(v, m, t, t)
    decreases |labels|
  {
    var pointer: Bytes := [0xC0, t];
    if labels == [] {
      EncodedThen(m, p, labels, pointer);
      assert pointer[0] == 0xC0 && pointer[1] == t;
      NoLabels(v, m, t, t);
      PointerCase(v, m, p, t, start);
    } else {
      var l, rest := labels[0], labels[1..];
      WrittenRest(m, p, labels, pointer);
      CompressedReadsBack(v, m, p + 1 + |l|, rest, t, start);
      WrittenLabel(v, m, p, labels, pointer, start);
      LabelsCons(l, rest, LabelsAt(v, m, t, t));
    }
  }

  lemma LabelsCons(l: Bytes, rest: Labels, more: Labels)
    ensures [l] + (rest + more) == ([l] + rest) + more
    ensures rest + more == [] <==> rest == [] && more == []
  {
  }

  // ------------------------------------------------------------------ the hostname round trip

  lemma {:induction false} SplitShort(s: Bytes)
    ensures forall piece :: piece in Split(s) ==> |piece| <= |s|
  {
    if s != [] {
      SplitShort(s[1..]);
    }
  }

  /** Joining short labels makes no long stretch without a dot. */
  lemma {:induction false} PiecesShort(labels: Labels, n: nat)
    requires n > 0 && forall l :: l in labels ==> |l| < n
    ensures forall piece :: piece in Split(Join(labels)) ==> |piece| < n
    decreases |labels|
  {
    if labels != [] {
      SplitShort(labels[0]);
      if |labels| > 1 {
        PiecesShort(labels[1..], n);
        SplitConcat(labels[0], Join(labels[1..]));
      }
    }
  }

  /** A label has at most 191 octets, since larger length octets are pointers. */
  lemma {:induction false} LabelsAreShort(v: Reader, m: Bytes, p: nat, start: nat)
    requires WellFormed(v, m, p, start)
    ensures forall l :: l in LabelsAt(v, m, p, start) ==> |l| < 192
    decreases start, |m| - p
  {
    var flag := m[p];
    PointerRange(flag);
    if flag != 0 {
      if IsPointer(flag) {
        var target := Target(v, flag, m[p + 1]);
        LabelsAreShort(v, m, target, target);
      } else {
        LabelsAreShort(v, m, p + 1 + flag, start);
      }
    }
  }

  /** So no decoded text, whatever the message, has 192 octets in a row without a dot. */
  lemma DecodedPiecesShort(m: Bytes, p: nat, start: nat)
    requires WellFormed(Code, m, p, start)
    ensures forall piece :: piece in Split(DecodedText(m, p, start)) ==> |piece| < 192
  {
    var labels := LabelsAt(Code, m, p, start);
    LabelsAreShort(Code, m, p, start);
    PiecesShort(labels, 192);
    PiecesBeforeDot(Join(labels), 192);
    assert Join(labels) + [] == Join(labels);
  }

  /** A dot at the end only adds an empty piece. */
  lemma PiecesBeforeDot(s: Bytes, n: nat)
    requires n > 0 && forall piece :: piece in Split(s) ==> |piece| < n
    ensures forall piece :: piece in Split(s + [DOT]) ==> |piece| < n
  {
    SplitConcat(s, []);
    assert s + [DOT] + [] == s + [DOT];
  }

  /**
   Hostname round trip: wherever the encoder's output stands, it decodes to the non-empty labels
   joined by dots if and only if every label has fewer than 192 octets; that text is the hostname
   itself when it has no empty label.
   */
  lemma HostnameRoundTrip(hostname: Bytes, pre: Bytes, post: Bytes)
    requires Tokens(hostname) != []
    ensures var m := pre + Written(Tokens(hostname)) + post;
      WellFormed(Code, m, |pre|, |pre|) && DecodedText(m, |pre|, |pre|) == Join(Tokens(hostname))
      <==> forall l :: l in Tokens(hostname) ==> |l| < 192
    ensures NoEmptyLabel(hostname) ==> Join(Tokens(hostname)) == hostname
  {
    var labels, m := Tokens(hostname), pre + Written(Tokens(hostname)) + post;
    if NoEmptyLabel(hostname) {
      TokensJoin(hostname);
    }
    JoinSplit(hostname);
    if forall l :: l in labels ==> |l| < 192 {
      HasAtWithin(pre, Written(labels), post);
      EncodedReadsBack(Code, m, |pre|, labels, |pre|);
      TextWithoutDot(m, |pre|, labels);
    }
    if WellFormed(Code, m, |pre|, |pre|) && DecodedText(m, |pre|, |pre|) == Join(labels) {
      DecodedLabelsShort(m, |pre|, labels);
    }
  }

  lemma DecodedLabelsShort(m: Bytes, p: nat, labels: Labels)
    requires labels != [] && forall l :: l in labels ==> DOT !in l
    requires WellFormed(Code, m, p, p) && DecodedText(m, p, p) == Join(labels)
    ensures forall l :: l in labels ==> |l| < 192
  {
    DecodedPiecesShort(m, p, p);
    SplitJoin(labels);
  }

  lemma TextWithoutDot(m: Bytes, p: nat, labels: Labels)
    requires WellFormed(Code, m, p, p) && LabelsAt(Code, m, p, p) == labels && !Dangling(Code, m, p, p)
    ensures DecodedText(m, p, p) == Join(labels)
  {
    assert Join(labels) + [] == Join(labels);
  }
}
