/** Domain names as label lists: text form, wire form, and the hostname encoder. */
module DnsNames {

  type byte = x: int | 0 <= x < 256
  type Bytes = seq<byte>
  type Labels = seq<Bytes>

  const DOT: byte := 0x2E

  /** The octets `w` stand in `m` at offset `p`. */
  predicate HasAt(m: Bytes, p: nat, w: Bytes) {
    p + |w| <= |m| && forall k {:trigger w[k]} :: 0 <= k < |w| ==> m[p + k] == w[k]
  }

  lemma HasAtConcat(m: Bytes, p: nat, a: Bytes, b: Bytes)
    requires HasAt(m, p, a + b)
    ensures HasAt(m, p, a) && HasAt(m, p + |a|, b)
  {
    forall k | 0 <= k < |a|
      ensures m[p + k] == a[k]
    {
      assert (a + b)[k] == a[k];
    }
    forall k | 0 <= k < |b|
      ensures m[p + |a| + k] == b[k]
    {
      assert (a + b)[|a| + k] == b[k];
    }
  }

  lemma HasAtWithin(pre: Bytes, w: Bytes, post: Bytes)
    ensures HasAt(pre + w + post, |pre|, w)
  {
  }

  lemma ThreeParts(a: Bytes, b: Bytes, c: Bytes)
    ensures var m := a + (b + c);
      HasAt(m, 0, a) && HasAt(m, |a|, b) && HasAt(m, |a| + |b|, c)
  {
    var m := a + (b + c);
    HasAtSelf(m);
    HasAtConcat(m, 0, a, b + c);
    HasAtConcat(m, |a|, b, c);
  }

  lemma HasAtSelf(m: Bytes)
    ensures HasAt(m, 0, m)
  {
  }

  lemma HasAtSlice(m: Bytes, p: nat, w: Bytes)
    requires HasAt(m, p, w)
    ensures m[p..p + |w|] == w
  {
  }

  // ------------------------------------------------------------------ text form

  /** The labels joined by dots. */
  function Join(labels: Labels): Bytes {
    if labels == [] then []
    else if |labels| == 1 then labels[0]
    else labels[0] + [DOT] + Join(labels[1..])
  }

  /** The pieces between dots, empty pieces included. */
  function Split(s: Bytes): (r: Labels)
    ensures r != []
  {
    if s == [] then [[]] else Front(s[0], Split(s[1..]))
  }

  /** A character in front of the first piece; a dot starts a new one. */
  function Front(c: byte, pieces: Labels): (r: Labels)
    requires pieces != []
    ensures r != []
  {
    if c == DOT then [[]] + pieces else [[c] + pieces[0]] + pieces[1..]
  }

  lemma FrontConcat(c: byte, a: Labels, b: Labels)
    requires a != []
    ensures Front(c, a + b) == Front(c, a) + b
  {
  }

  lemma SplitCons(c: byte, s: Bytes)
    ensures Split([c] + s) == Front(c, Split(s))
  {
    assert ([c] + s)[1..] == s;
  }

  lemma {:induction false} SplitConcat(a: Bytes, b: Bytes)
    ensures Split(a + [DOT] + b) == Split(a) + Split(b)
  {
    if a == [] {
      assert a + [DOT] + b == [DOT] + b;
      SplitCons(DOT, b);
    } else {
      var c, rest := a[0], a[1..];
      SplitConcat(rest, b);
      assert a + [DOT] + b == [c] + (rest + [DOT] + b) && a == [c] + rest;
      SplitCons(c, rest + [DOT] + b);
      SplitCons(c, rest);
      FrontConcat(c, Split(rest), Split(b));
    }
  }

  lemma Regroup(a: Bytes, b: Bytes, c: Bytes)
    ensures a + (b + c) == (a + b) + c
  {
  }

  lemma JoinCons(l: Bytes, rest: Labels)
    ensures Join([l] + rest) == l + if rest == [] then [] else [DOT] + Join(rest)
  {
    assert ([l] + rest)[1..] == rest;
    if rest != [] {
      assert l + [DOT] + Join(rest) == l + ([DOT] + Join(rest));
    }
  }

  /** `Split` is the inverse of `Join`. */
  lemma {:induction false} JoinSplit(s: Bytes)
    ensures Join(Split(s)) == s
    ensures forall l :: l in Split(s) ==> DOT !in l
  {
    if s != [] {
      JoinSplit(s[1..]);
      var rest := Split(s[1..]);
      assert s == [s[0]] + s[1..];
      if s[0] == DOT {
        JoinCons([], rest);
      } else {
        JoinLonger(s[0], rest);
      }
    }
  }

  /** A character in front of the first label. */
  lemma JoinLonger(c: byte, labels: Labels)
    requires labels != []
    ensures Join([[c] + labels[0]] + labels[1..]) == [c] + Join(labels)
  {
    var l, rest := labels[0], labels[1..];
    assert labels == [l] + rest;
    JoinCons(l, rest);
    JoinCons([c] + l, rest);
    Regroup([c], l, if rest == [] then [] else [DOT] + Join(rest));
  }

  lemma {:induction false} SplitJoin(labels: Labels)
    requires labels != [] && forall l :: l in labels ==> DOT !in l
    ensures Split(Join(labels)) == labels
  {
    if |labels| == 1 {
      SplitPrefix(labels[0], []);
    } else {
      SplitJoin(labels[1..]);
      SplitPrefix(labels[0], Join(labels[1..]));
      assert labels == [labels[0]] + labels[1..];
    }
  }

  lemma SplitPrefix(l: Bytes, s: Bytes)
    requires DOT !in l
    ensures Split(l) == [l]
    ensures Split(l + [DOT] + s) == [l] + Split(s)
  {
    SplitDotFree(l);
    SplitConcat(l, s);
  }

  lemma {:induction false} SplitDotFree(l: Bytes)
    requires DOT !in l
    ensures Split(l) == [l]
  {
    if l != [] {
      SplitDotFree(l[1..]);
      assert l == [l[0]] + l[1..];
    }
  }

  /** The non-empty pieces: what repeated `strtok` on "." delivers. */
  function Tokens(s: Bytes): Labels {
    NonEmpty(Split(s))
  }

  function NonEmpty(labels: Labels): (r: Labels)
    ensures |r| <= |labels| && forall l :: l in r ==> l != [] && l in labels
  {
    if labels == [] then []
    else (if labels[0] == [] then [] else [labels[0]]) + NonEmpty(labels[1..])
  }

  lemma TokensNil()
    ensures Tokens([]) == []
  {
    var piece: Labels := [[]];
    assert Split([]) == piece && piece[1..] == [];
  }

  lemma TokensSkipDot(s: Bytes)
    requires s != [] && s[0] == DOT
    ensures Tokens(s) == Tokens(s[1..])
  {
    assert Split(s)[1..] == Split(s[1..]);
  }

  lemma TokensTake(l: Bytes, s: Bytes)
    requires l != [] && DOT !in l
    ensures Tokens(l) == [l]
    ensures Tokens(l + [DOT] + s) == [l] + Tokens(s)
  {
    SplitPrefix(l, s);
    var one: Labels := [l];
    assert one[1..] == [] && NonEmpty(one) == [l] + NonEmpty(one[1..]);
    assert (one + Split(s))[1..] == Split(s);
  }

  /** The number of empty pieces of a hostname. */
  function Gaps(labels: Labels): nat {
    |labels| - |NonEmpty(labels)|
  }

  predicate NoEmptyLabel(s: Bytes) {
    [] !in Split(s)
  }

  lemma {:induction false} NoGaps(labels: Labels)
    ensures |NonEmpty(labels)| <= |labels|
    ensures |NonEmpty(labels)| == |labels| <==> [] !in labels
    ensures [] !in labels ==> NonEmpty(labels) == labels
  {
    if labels != [] {
      NoGaps(labels[1..]);
      assert labels == [labels[0]] + labels[1..];
    }
  }

  // ------------------------------------------------------------------ wire form

  /** The length octet of a label: `(char)length`. */
  function LengthOctet(n: nat): byte {
    n % 256
  }

  /** The labels, each behind its length octet, without the final zero octet. */
  function Encode(labels: Labels): Bytes {
    if labels == [] then []
    else [LengthOctet(|labels[0]|)] + labels[0] + Encode(labels[1..])
  }

  /** Encoded labels begin with the first one. */
  lemma EncodedHead(l: Bytes, rest: Labels, tail: Bytes)
    ensures Encode([l] + rest) + tail == [LengthOctet(|l|)] + (l + (Encode(rest) + tail))
  {
    assert ([l] + rest)[1..] == rest;
  }

  /** What encoded labels at `p`, with `tail` behind them, say about the octets there. */
  lemma EncodedThen(m: Bytes, p: nat, labels: Labels, tail: Bytes)
    requires HasAt(m, p, Encode(labels) + tail)
    ensures labels == [] ==> HasAt(m, p, tail)
    ensures labels != [] ==>
      var l, rest := labels[0], labels[1..];
      && |Encode(labels)| == 1 + |l| + |Encode(rest)|
      && p + 1 + |l| + |tail| <= |m| && m[p] == LengthOctet(|l|) && m[p + 1..p + 1 + |l|] == l
      && HasAt(m, p + 1 + |l|, Encode(rest) + tail) && (rest == [] ==> HasAt(m, p + 1 + |l|, tail))
  {
    var none: Bytes := [];
    assert none + tail == tail;
    if labels != [] {
      var l, rest := labels[0], labels[1..];
      assert labels == [l] + rest;
      EncodedHead(l, rest, tail);
      HasAtConcat(m, p, [LengthOctet(|l|)], l + (Encode(rest) + tail));
      assert [LengthOctet(|l|)][0] == LengthOctet(|l|);
      HasAtConcat(m, p + 1, l, Encode(rest) + tail);
      HasAtSlice(m, p + 1, l);
    }
  }

  /** The same for a name written out in full, whose tail is the zero octet. */
  lemma EncodedAt(m: Bytes, p: nat, labels: Labels)
    requires HasAt(m, p, Encode(labels) + [0])
    ensures labels == [] ==> p < |m| && m[p] == 0
    ensures labels != [] ==>
      var l, rest := labels[0], labels[1..];
      && |Encode(labels)| == 1 + |l| + |Encode(rest)|
      && p + 1 + |l| < |m| && m[p] == LengthOctet(|l|) && m[p + 1..p + 1 + |l|] == l
      && HasAt(m, p + 1 + |l|, Encode(rest) + [0]) && (rest == [] ==> m[p + 1 + |l|] == 0)
  {
    EncodedThen(m, p, labels, [0]);
    var zero: Bytes := [0];
    assert zero[0] == 0;
  }

  /** What the encoder writes: nothing for a name without labels, else the labels and a zero octet. */
  function Written(labels: Labels): Bytes {
    if labels == [] then [] else Encode(labels) + [0]
  }

  lemma {:induction false} EncodeConcat(a: Labels, b: Labels)
    ensures Encode(a + b) == Encode(a) + Encode(b)
  {
    if a == [] {
      assert a + b == b;
    } else {
      assert (a + b)[1..] == a[1..] + b;
      EncodeConcat(a[1..], b);
      assert Encode(a) + Encode(b) == [LengthOctet(|a[0]|)] + a[0] + (Encode(a[1..]) + Encode(b));
    }
  }

  lemma EncodeSnoc(a: Labels, l: Bytes)
    ensures Encode(a + [l]) == Encode(a) + [LengthOctet(|l|)] + l
  {
    EncodeConcat(a, [l]);
    assert [l][1..] == [];
  }

  /** One octet per piece and one per separator: only empty pieces make the wire form shorter. */
  lemma {:induction false} EncodeSize(labels: Labels)
    requires labels != []
    ensures |NonEmpty(labels)| <= |labels|
    ensures |Encode(NonEmpty(labels))| + Gaps(labels) == |Join(labels)| + 1
  {
    NoGaps(labels);
    if |labels| > 1 {
      EncodeSize(labels[1..]);
      NoGaps(labels[1..]);
    } else {
      assert labels[1..] == [];
    }
    if labels[0] != [] {
      assert NonEmpty(labels)[1..] == NonEmpty(labels[1..]);
    } else {
      assert NonEmpty(labels) == NonEmpty(labels[1..]);
    }
  }

  /**
   The encoder's output never exceeds the buffer of `strlen + 2` octets; it fills the buffer
   exactly when the hostname has no empty label, and then it ends in a zero octet.
   */
  lemma WrittenSize(s: Bytes)
    ensures |Encode(Tokens(s))| <= |s| + 1
    ensures |Written(Tokens(s))| <= |s| + 2
    ensures |Written(Tokens(s))| == |s| + 2 <==> NoEmptyLabel(s)
    ensures NoEmptyLabel(s) ==> Tokens(s) == Split(s) && Written(Tokens(s))[|s| + 1] == 0
  {
    JoinSplit(s);
    EncodeSize(Split(s));
    NoGaps(Split(s));
  }

  /** A hostname without empty labels is recovered from its tokens. */
  lemma TokensJoin(s: Bytes)
    requires NoEmptyLabel(s)
    ensures Join(Tokens(s)) == s
  {
    JoinSplit(s);
    NoGaps(Split(s));
  }

  // ------------------------------------------------------------------ the encoder

  /** `out` with `text` written at `at`. */
  function Spliced(out: Bytes, at: nat, text: Bytes): Bytes
    requires at + |text| <= |out|
  {
    out[..at] + text + out[at + |text|..]
  }

  lemma SplicedTwice(out: Bytes, at: nat, a: Bytes, b: Bytes)
    requires at + |a| + |b| <= |out|
    ensures Spliced(Spliced(out, at, a), at + |a|, b) == Spliced(out, at, a + b)
  {
  }

  method Memcpy(dst: array<byte>, at: nat, src: Bytes)
    requires at + |src| <= dst.Length
    modifies dst
    ensures dst[..] == Spliced(old(dst[..]), at, src)
  {
    forall k | 0 <= k < |src| {
      dst[at + k] := src[k];
    }
  }

  /** memcpy into a buffer nobody measured: `ok` says that the copy stays inside. */
  method CopyInto(dst: array<byte>, at: nat, src: Bytes) returns (ok: bool)
    modifies dst
    ensures ok <==> at + |src| <= dst.Length
    ensures ok ==> dst[..] == Spliced(old(dst[..]), at, src)
  {
    ok := at + |src| <= dst.Length;
    if ok {
      Memcpy(dst, at, src);
    }
  }

  method SkipDots(s: Bytes, p: nat) returns (next: nat)
    requires p <= |s|
    ensures p <= next <= |s| && Tokens(s[next..]) == Tokens(s[p..])
    ensures next < |s| ==> s[next] != DOT
  {
    next := p;
    while next < |s| && s[next] == DOT
      invariant p <= next <= |s| && Tokens(s[next..]) == Tokens(s[p..])
    {
      TokensSkipDot(s[next..]);
      assert s[next..][1..] == s[next + 1..];
      next := next + 1;
    }
  }

  method FindDot(s: Bytes, p: nat) returns (end: nat)
    requires p < |s| && s[p] != DOT
    ensures p < end <= |s| && DOT !in s[p..end]
    ensures end < |s| ==> s[end] == DOT
  {
    end := p + 1;
    while end < |s| && s[end] != DOT
      invariant p < end <= |s| && DOT !in s[p..end]
    {
      end := end + 1;
    }
  }

  /** strtok on ".", continuing at `p`: the next token, or none, and where to continue. */
  method NextToken(s: Bytes, p: nat) returns (found: bool, token: Bytes, next: nat)
    requires p <= |s|
    ensures p <= next <= |s|
    ensures !found ==> Tokens(s[p..]) == []
    ensures found ==> token != [] && p < next && Tokens(s[p..]) == [token] + Tokens(s[next..])
  {
    var start := SkipDots(s, p);
    TokensNil();
    if start == |s| {
      assert s[start..] == [];
      return false, [], start;
    }
    var end := FindDot(s, start);
    token := s[start..end];
    if end < |s| {
      TokensTake(token, s[end + 1..]);
      assert s[start..] == token + [DOT] + s[end + 1..];
      return true, token, end + 1;
    }
    TokensTake(token, []);
    assert s[start..] == token && s[end..] == [];
    return true, token, end;
  }

  lemma LabelFits(hostname: Bytes, done: Labels, token: Bytes, rest: Labels)
    requires Tokens(hostname) == done + [token] + rest
    ensures Encode(done + [token]) == Encode(done) + [LengthOctet(|token|)] + token
    ensures |Encode(done + [token])| <= |hostname| + 1
  {
    WrittenSize(hostname);
    EncodeSnoc(done, token);
    EncodeConcat(done + [token], rest);
  }

  /** Overwriting the terminator with the next label extends the written prefix. */
  lemma LabelWritten(before: Bytes, done: Labels, token: Bytes, q: Bytes, q': Bytes)
    requires Encode(done + [token]) == Encode(done) + [LengthOctet(|token|)] + token
    requires |Encode(done + [token])| + 1 <= |before| == |q|
    requires |Written(done)| <= |before| && q == Written(done) + before[|Written(done)|..]
    requires var pos := |Encode(done)|;
      q' == q[..pos] + [LengthOctet(|token|)] + token + [0] + q[pos + |token| + 2..]
    ensures q' == Written(done + [token]) + before[|Written(done + [token])|..]
  {
    WrittenParts(done);
    WrittenParts(done + [token]);
    Overwritten(Encode(done), if done == [] then [] else [0], [LengthOctet(|token|)], token, before, q, q');
  }

  lemma WrittenParts(labels: Labels)
    ensures Written(labels) == Encode(labels) + if labels == [] then [] else [0]
  {
  }

  /** Two pieces and a terminator in place of the terminator `z` behind `a`. */
  lemma Overwritten(a: Bytes, z: Bytes, b: Bytes, c: Bytes, before: Bytes, q: Bytes, q': Bytes)
    requires |z| <= |b| && |a| + |b| + |c| + 1 <= |before| == |q| && q == a + z + before[|a| + |z|..]
    requires q' == q[..|a|] + b + c + [0] + q[|a| + |b| + |c| + 1..]
    ensures q' == a + b + c + [0] + before[|a| + |b| + |c| + 1..]
  {
    assert q[..|a|] == a;
    assert q[|a| + |b| + |c| + 1..] == before[|a| + |b| + |c| + 1..];
  }

  /**
   The label loop of dnsCreateBody, on the uninitialised buffer `qName`.  `strcpy` copies the
   terminator too; the next label overwrites it.
   */
  method CreateBody(hostname: Bytes, qName: array<byte>)
    requires qName.Length == |hostname| + 2
    modifies qName
    ensures |Written(Tokens(hostname))| <= qName.Length
    ensures qName[..] == Written(Tokens(hostname)) + old(qName[..])[|Written(Tokens(hostname))|..]
  {
    WrittenSize(hostname);
    ghost var done: Labels, left := [], Tokens(hostname);
    ghost var before := qName[..];
    var pos := 0;
    assert hostname[0..] == hostname;
    var found, token, next := NextToken(hostname, 0);
    while found
      invariant next <= |hostname| && Tokens(hostname) == done + left
      invariant if found then left == [token] + Tokens(hostname[next..]) else left == []
      invariant pos == |Encode(done)| && |Written(done)| <= qName.Length
      invariant qName[..] == Written(done) + before[|Written(done)|..]
      decreases |left|
    {
      pos := AppendLabel(hostname, qName, pos, token, before, done, left[1..]);
      done, left := done + [token], left[1..];
      found, token, next := NextToken(hostname, next);
    }
    assert done == Tokens(hostname);
  }

  /** One turn of the loop. */
  method AppendLabel(ghost hostname: Bytes, qName: array<byte>, pos: nat, token: Bytes,
                     ghost before: Bytes, ghost done: Labels, ghost rest: Labels) returns (pos': nat)
    requires qName.Length == |hostname| + 2 == |before| && Tokens(hostname) == done + [token] + rest
    requires pos == |Encode(done)| && |Written(done)| <= qName.Length
    requires qName[..] == Written(done) + before[|Written(done)|..]
    modifies qName
    ensures pos' == |Encode(done + [token])| && |Written(done + [token])| <= qName.Length
    ensures qName[..] == Written(done + [token]) + before[|Written(done + [token])|..]
  {
    LabelFits(hostname, done, token, rest);
    ghost var q := qName[..];
    WriteLabel(qName, pos, token);
    LabelWritten(before, done, token, q, qName[..]);
    pos' := pos + 1 + |token|;
  }

  /** Lines 107-110: the length octet, then the label with its terminator. */
  method WriteLabel(qName: array<byte>, pos: nat, token: Bytes)
    requires pos + |token| + 2 <= qName.Length
    modifies qName
    ensures qName[..] == old(qName[..pos]) + [LengthOctet(|token|)] + token + [0] + old(qName[pos + |token| + 2..])
  {
    ghost var q := qName[..];
    qName[pos] := LengthOctet(|token|);
    Memcpy(qName, pos + 1, token + [0]);
    LabelPlaced(q, pos, LengthOctet(|token|), token);
  }

  lemma LabelPlaced(q: Bytes, pos: nat, length: byte, token: Bytes)
    requires pos + |token| + 2 <= |q|
    ensures Spliced(q[pos := length], pos + 1, token + [0])
         == q[..pos] + [length] + token + [0] + q[pos + |token| + 2..]
  {
    var q' := q[pos := length];
    assert q'[..pos + 1] == q[..pos] + [length];
    assert q'[pos + |token| + 2..] == q[pos + |token| + 2..];
    Regroup(q[..pos] + [length], token, [0]);
  }
}
