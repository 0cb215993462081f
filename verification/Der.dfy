/** The structural screen for DER-encoded ECDSA signatures
    (app/domain/manifest.py, `is_der_ecdsa_signature` and `_read_der_length`). */
module Der {
  import opened Wrappers
  import opened Tables

  /* ----- the grammar the code accepts, by positions in the octet string ----- */

  function BigEndian(s: bytes): nat {
    if s == [] then 0 else 256 * BigEndian(s[..|s| - 1]) + s[|s| - 1]
  }

  /** Octets `from` up to `to` encode the length `n`: short form, or long form of
      one to four octets without a leading zero. Unlike section 10.1 of ITU-T X.690,
      long form is not restricted to lengths that need it. */
  ghost predicate LengthAt(data: bytes, from: nat, to: nat, n: nat) {
    && from < to <= |data|
    && var octets := to - from - 1;
       || (octets == 0 && data[from] < 0x80 && n == data[from])
       || (&& 1 <= octets <= 4
           && data[from] == 0x80 + octets
           && data[from + 1] != 0
           && n == BigEndian(data[from + 1..to]))
  }

  /** A tag at `from`, length octets, and exactly that many content octets, which
      lie from `content` up to `to`. */
  ghost predicate ElementAt(data: bytes, tag: byte, from: nat, content: nat, to: nat) {
    && from < content <= to <= |data|
    && data[from] == tag
    && LengthAt(data, from + 1, content, to - content)
  }

  ghost predicate IntegerAt(data: bytes, from: nat, content: nat, to: nat) {
    ElementAt(data, 0x02, from, content, to) && 1 <= to - content <= 33
  }

  /** The octets from `from` to the end are exactly `count` integers. */
  ghost predicate OneInteger(data: bytes, from: nat) {
    exists content :: IntegerAt(data, from, content, |data|)
  }

  ghost predicate TwoIntegers(data: bytes, from: nat) {
    exists content, to :: IntegerAt(data, from, content, to) && OneInteger(data, to)
  }

  ghost predicate Integers(data: bytes, from: nat, count: nat) {
    if count == 0 then from == |data|
    else if count == 1 then OneInteger(data, from)
    else count == 2 && TwoIntegers(data, from)
  }

  /** One sequence element that is the whole string and holds two integers. */
  ghost predicate IsSignature(s: bytes) {
    exists body :: ElementAt(s, 0x30, 0, body, |s|) && Integers(s, body, 2)
  }

  /* ----- reading length octets ----- */

  ghost predicate SomeLengthAt(data: bytes, from: nat) {
    exists to, n :: LengthAt(data, from, to, n)
  }

  /** `None` stands for the ValueError: no octets there encode any length. */
  method ReadDerLength(data: bytes, index: nat) returns (r: Option<(nat, nat)>)
    ensures r.Some? ==> LengthAt(data, index, r.value.1, r.value.0)
    ensures r.None? ==> !SomeLengthAt(data, index)
  {
    if index >= |data| {
      return None;
    }
    var first := data[index];
    var i := index + 1;
    if first < 0x80 {
      return Some((first, i));
    }
    var byteCount := first - 0x80;
    if byteCount == 0 || byteCount > 4 || i + byteCount > |data| {
      return None;
    }
    if data[i] == 0 {
      return None;
    }
    return Some((BigEndian(data[i..i + byteCount]), i + byteCount));
  }

  /** The first octet fixes how many octets belong to the length, so a position
      has at most one reading. */
  lemma LengthIsPrefixFree(data: bytes, from: nat, to: nat, n: nat, to': nat, n': nat)
    requires LengthAt(data, from, to, n) && LengthAt(data, from, to', n')
    ensures to == to' && n == n'
  {
  }

  /** What the loop body does to the part still unread: an integer needs its tag
      and a readable length ... */
  lemma IntegersStart(data: bytes, from: nat, count: nat)
    requires 1 <= count <= 2 && Integers(data, from, count)
    ensures from < |data| && data[from] == 0x02 && SomeLengthAt(data, from + 1)
  {
  }

  /** ... and otherwise peeling one is exact. */
  lemma Peel(data: bytes, from: nat, count: nat, content: nat, n: nat)
    requires 1 <= count <= 2
    requires LengthAt(data, from + 1, content, n) && from < |data| && data[from] == 0x02
    ensures Integers(data, from, count)
            <==> 1 <= n <= 33 && content + n <= |data| && Integers(data, content + n, count - 1)
  {
    if 1 <= n <= 33 && content + n <= |data| {
      assert IntegerAt(data, from, content, content + n);
    }
    if Integers(data, from, count) {
      if count == 1 {
        var c: nat :| IntegerAt(data, from, c, |data|);
        LengthIsPrefixFree(data, from + 1, content, n, c, |data| - c);
      } else {
        var c: nat, to: nat :| IntegerAt(data, from, c, to) && OneInteger(data, to);
        LengthIsPrefixFree(data, from + 1, content, n, c, to - c);
      }
    }
  }

  lemma HeaderDecides(s: bytes)
    ensures s == [] || s[0] != 0x30 || !SomeLengthAt(s, 1) ==> !IsSignature(s)
    ensures forall body, n :: s != [] && s[0] == 0x30 && LengthAt(s, 1, body, n) ==>
              (IsSignature(s) <==> n == |s| - body && Integers(s, body, 2))
  {
  }

  /** The screen decides the grammar, on every byte string. */
  method IsDerEcdsaSignature(signature: bytes) returns (ok: bool)
    ensures ok <==> IsSignature(signature)
  {
    HeaderDecides(signature);
    if signature == [] || signature[0] != 0x30 {
      return false;
    }
    var header := ReadDerLength(signature, 1);
    if header.None? {
      return false;
    }
    var bodyLength: nat, index: nat := header.value.0, header.value.1;
    if bodyLength != |signature| - index {
      return false;
    }
    var end := index + bodyLength;
    for count := 0 to 2
      invariant index <= end == |signature|
      invariant IsSignature(signature) <==> Integers(signature, index, 2 - count)
    {
      if index >= end || signature[index] != 0x02 {
        if Integers(signature, index, 2 - count) {
          IntegersStart(signature, index, 2 - count);
        }
        return false;
      }
      var element := ReadDerLength(signature, index + 1);
      if element.None? {
        if Integers(signature, index, 2 - count) {
          IntegersStart(signature, index, 2 - count);
        }
        return false;
      }
      var integerLength, next := element.value.0, element.value.1;
      Peel(signature, index, 2 - count, next, integerLength);
      if integerLength < 1 || integerLength > 33 || next + integerLength > end {
        return false;
      }
      index := next + integerLength;
    }
    ok := index == end;
  }

  /* ----- consequences of the grammar ----- */

  lemma {:induction false} BigEndianAtLeast(s: bytes)
    requires |s| >= 2 && s[0] != 0
    ensures BigEndian(s) >= 256
  {
    var front := s[..|s| - 1];
    if |s| == 2 {
      assert front == [s[0]];
      assert BigEndian(front[..0]) == 0;
    } else {
      BigEndianAtLeast(front);
    }
  }

  /** A length under 256 takes one or two octets. */
  lemma ShortLengths(data: bytes, from: nat, to: nat, n: nat)
    requires LengthAt(data, from, to, n) && n < 256
    ensures to <= from + 2
  {
    if to > from + 2 {
      BigEndianAtLeast(data[from + 1..to]);
    }
  }

  lemma IntegerSize(data: bytes, from: nat, content: nat, to: nat)
    requires IntegerAt(data, from, content, to)
    ensures from + 3 <= to <= from + 36
  {
    ShortLengths(data, from + 1, content, to - content);
  }

  /** The positions an accepted signature determines. */
  lemma Layout(s: bytes) returns (body: nat, r: nat, middle: nat, t: nat)
    requires IsSignature(s)
    ensures ElementAt(s, 0x30, 0, body, |s|)
    ensures IntegerAt(s, body, r, middle) && IntegerAt(s, middle, t, |s|)
  {
    body :| ElementAt(s, 0x30, 0, body, |s|) && Integers(s, body, 2);
    r, middle :| IntegerAt(s, body, r, middle) && OneInteger(s, middle);
    t :| IntegerAt(s, middle, t, |s|);
  }

  /** Every accepted signature has 8 to 75 octets. */
  lemma SignatureSize(s: bytes)
    requires IsSignature(s)
    ensures 8 <= |s| <= 75
  {
    var body, r, middle, t := Layout(s);
    IntegerSize(s, body, r, middle);
    IntegerSize(s, middle, t, |s|);
    ShortLengths(s, 1, body, |s| - body);
  }

  /** The grammar is unambiguous: one signature carries one pair of integers. */
  lemma LayoutIsUnique(
    s: bytes, body: nat, r: nat, middle: nat, t: nat,
    body': nat, r': nat, middle': nat, t': nat)
    requires ElementAt(s, 0x30, 0, body, |s|) && ElementAt(s, 0x30, 0, body', |s|)
    requires IntegerAt(s, body, r, middle) && IntegerAt(s, middle, t, |s|)
    requires IntegerAt(s, body', r', middle') && IntegerAt(s, middle', t', |s|)
    ensures body == body' && r == r' && middle == middle' && t == t'
  {
  }

  /* ----- minimal encodings ----- */

  function BigEndianBytes(n: nat): (s: bytes)
    ensures s != [] && BigEndian(s) == n
    ensures n > 0 ==> s[0] != 0
  {
    if n < 256 then
      assert BigEndian([n][..0]) == 0;
      [n]
    else
      var s := BigEndianBytes(n / 256) + [n % 256];
      assert s[..|s| - 1] == BigEndianBytes(n / 256);
      s
  }

  lemma {:induction false} BigEndianBytesFit(n: nat, k: nat, bound: nat)
    requires 1 <= k <= 4 && n < bound
    requires bound == (if k == 1 then 0x100 else if k == 2 then 0x1_0000
                       else if k == 3 then 0x100_0000 else 0x1_0000_0000)
    ensures |BigEndianBytes(n)| <= k
    decreases k
  {
    if n >= 256 {
      BigEndianBytesFit(n / 256, k - 1, bound / 256);
    }
  }

  /** Section 8.1.3 of ITU-T X.690 with the restriction of section 10.1: short form
      below 128, otherwise the fewest octets. */
  function MinimalLength(n: nat): bytes
    requires n < 0x1_0000_0000
  {
    if n < 0x80 then [n]
    else
      BigEndianBytesFit(n, 4, 0x1_0000_0000);
      [0x80 + |BigEndianBytes(n)|] + BigEndianBytes(n)
  }

  /** Reading back the minimal encoding of a length returns it, whatever surrounds
      it; and nothing else can be read there. */
  lemma MinimalLengthReadsBack(n: nat, data: bytes, from: nat, to: nat)
    requires n < 0x1_0000_0000
    requires from <= to <= |data| && data[from..to] == MinimalLength(n)
    ensures LengthAt(data, from, to, n)
    ensures forall to', n' :: LengthAt(data, from, to', n') ==> to' == to && n' == n
  {
    var e := data[from..to];
    assert data[from] == e[0];
    if n >= 0x80 {
      BigEndianBytesFit(n, 4, 0x1_0000_0000);
      assert data[from + 1..to] == e[1..] == BigEndianBytes(n);
      assert data[from + 1] == BigEndianBytes(n)[0];
    }
    forall to', n' | LengthAt(data, from, to', n')
      ensures to' == to && n' == n
    {
      LengthIsPrefixFree(data, from, to, n, to', n');
    }
  }

  function Element(tag: byte, length: bytes, content: bytes): bytes {
    [tag] + length + content
  }

  /** The string that carries `r` and `t` with the given length octets. */
  function SignatureOf(outer: bytes, lr: bytes, r: bytes, lt: bytes, t: bytes): bytes {
    Element(0x30, outer, Element(0x02, lr, r) + Element(0x02, lt, t))
  }

  lemma SignatureSlices(s: bytes, outer: bytes, lr: bytes, r: bytes, lt: bytes, t: bytes, body: nat, middle: nat)
    requires s == SignatureOf(outer, lr, r, lt, t)
    requires body == 1 + |outer| && middle == body + 1 + |lr| + |r|
    ensures |s| == middle + 1 + |lt| + |t|
    ensures s[0] == 0x30 && s[1..body] == outer
    ensures s[body] == 0x02 && s[body + 1..body + 1 + |lr|] == lr
    ensures s[middle] == 0x02 && s[middle + 1..middle + 1 + |lt|] == lt
  {
  }

  lemma SignatureAssembles(s: bytes, body: nat, r: nat, middle: nat, t: nat)
    requires body < r <= middle < t <= |s|
    requires s[0] == 0x30 && s[body] == 0x02 && s[middle] == 0x02
    requires LengthAt(s, 1, body, |s| - body)
    requires LengthAt(s, body + 1, r, middle - r) && 1 <= middle - r <= 33
    requires LengthAt(s, middle + 1, t, |s| - t) && 1 <= |s| - t <= 33
    ensures IsSignature(s)
  {
    assert IntegerAt(s, body, r, middle);
    assert IntegerAt(s, middle, t, |s|);
    assert OneInteger(s, middle);
    assert Integers(s, body, 2);
    assert ElementAt(s, 0x30, 0, body, |s|);
  }

  lemma MinimalLengthAt(n: nat, data: bytes, from: nat, octets: bytes)
    requires n < 0x1_0000_0000 && octets == MinimalLength(n)
    requires from + |octets| <= |data| && data[from..from + |octets|] == octets
    ensures LengthAt(data, from, from + |octets|, n)
  {
    MinimalLengthReadsBack(n, data, from, from + |octets|);
  }

  /** Every minimally encoded pair of integers of 1 to 33 octets is accepted. */
  lemma MinimalPairAccepted(r: bytes, t: bytes)
    requires 1 <= |r| <= 33 && 1 <= |t| <= 33
    ensures
      var lr, lt := MinimalLength(|r|), MinimalLength(|t|);
      IsSignature(SignatureOf(MinimalLength(2 + |lr| + |r| + |lt| + |t|), lr, r, lt, t))
  {
    var lr, lt := MinimalLength(|r|), MinimalLength(|t|);
    var outer := MinimalLength(2 + |lr| + |r| + |lt| + |t|);
    var s := SignatureOf(outer, lr, r, lt, t);
    var body := 1 + |outer|;
    var middle := body + 1 + |lr| + |r|;
    SignatureSlices(s, outer, lr, r, lt, t, body, middle);
    MinimalLengthAt(|s| - body, s, 1, outer);
    MinimalLengthAt(|r|, s, body + 1, lr);
    MinimalLengthAt(|t|, s, middle + 1, lt);
    SignatureAssembles(s, body, body + 1 + |lr|, middle, middle + 1 + |lt|);
  }

  lemma LongFormReads(data: bytes, from: nat, n: byte)
    requires from + 2 <= |data| && data[from..from + 2] == [0x81, n] && 0 < n
    ensures LengthAt(data, from, from + 2, n)
  {
  }

  /** The screen is wider than DER: the same pair with long-form lengths, which
      section 10.1 of ITU-T X.690 forbids below 128, is accepted as well. */
  lemma LongFormPairAccepted(r: bytes, t: bytes)
    requires 1 <= |r| <= 33 && 1 <= |t| <= 33
    ensures IsSignature(
              SignatureOf([0x81, 6 + |r| + |t|], [0x81, |r|], r, [0x81, |t|], t))
  {
    var outer, lr, lt := [0x81, 6 + |r| + |t|], [0x81, |r|], [0x81, |t|];
    var s := SignatureOf(outer, lr, r, lt, t);
    var middle := 6 + |r|;
    SignatureSlices(s, outer, lr, r, lt, t, 3, middle);
    LongFormReads(s, 1, |s| - 3);
    LongFormReads(s, 4, |r|);
    LongFormReads(s, middle + 1, |t|);
    SignatureAssembles(s, 3, 6, middle, middle + 3);
  }

  /* ----- how far the screen is from DER ----- */

  /** Section 8.3.2 of ITU-T X.690: the first nine bits of an integer's content are
      neither all zero nor all one. */
  predicate IsMinimalInteger(content: bytes) {
    && content != []
    && (|content| >= 2 ==>
          && !(content[0] == 0x00 && content[1] < 0x80)
          && !(content[0] == 0xff && content[1] >= 0x80))
  }

  /** `s` is the distinguished encoding of the two integers with these contents. */
  ghost predicate IsDerOf(s: bytes, r: bytes, t: bytes) {
    && 1 <= |r| <= 33 && 1 <= |t| <= 33 && IsMinimalInteger(r) && IsMinimalInteger(t)
    && var lr, lt := MinimalLength(|r|), MinimalLength(|t|);
       s == SignatureOf(MinimalLength(2 + |lr| + |r| + |lt| + |t|), lr, r, lt, t)
  }

  ghost predicate IsDer(s: bytes) {
    exists r, t :: IsDerOf(s, r, t)
  }

  ghost predicate HasLayout(s: bytes, body: nat, r: nat, middle: nat, t: nat) {
    && ElementAt(s, 0x30, 0, body, |s|)
    && IntegerAt(s, body, r, middle) && IntegerAt(s, middle, t, |s|)
  }

  /** All three lengths are the ones DER prescribes. */
  ghost predicate LengthsAreDer(s: bytes, body: nat, r: nat, middle: nat, t: nat)
    requires HasLayout(s, body, r, middle, t)
  {
    && s[1..body] == MinimalLength(|s| - body)
    && s[body + 1..r] == MinimalLength(middle - r)
    && s[middle + 1..t] == MinimalLength(|s| - t)
  }

  lemma ShortFormIsMinimal(data: bytes, from: nat, to: nat, n: nat)
    requires LengthAt(data, from, to, n) && n < 0x80
    ensures data[from..to] == MinimalLength(n) <==> data[from] < 0x80
  {
    assert data[from..to][0] == data[from];
    assert data[from] < 0x80 ==> data[from..to] == [n];
  }

  /** In an accepted string a length is the one DER prescribes iff it is in short form. */
  lemma LengthsAreDerIff(s: bytes, body: nat, r: nat, middle: nat, t: nat)
    requires HasLayout(s, body, r, middle, t)
    ensures LengthsAreDer(s, body, r, middle, t)
            <==> s[1] < 0x80 && s[body + 1] < 0x80 && s[middle + 1] < 0x80
  {
    IntegerSize(s, body, r, middle);
    IntegerSize(s, middle, t, |s|);
    ShortFormIsMinimal(s, 1, body, |s| - body);
    ShortFormIsMinimal(s, body + 1, r, middle - r);
    ShortFormIsMinimal(s, middle + 1, t, |s| - t);
  }

  lemma DerLayout(s: bytes, r: bytes, t: bytes)
    requires IsDerOf(s, r, t)
    ensures HasLayout(s, 2, 4, 4 + |r|, 6 + |r|) && s[4..4 + |r|] == r && s[6 + |r|..] == t
    ensures s[1] < 0x80 && s[3] < 0x80 && s[5 + |r|] < 0x80
  {
    assert s == [0x30, 4 + |r| + |t|, 0x02, |r|] + r + [0x02, |t|] + t;
  }

  lemma ShortFormLayout(s: bytes, body: nat, r: nat, middle: nat, t: nat)
    requires HasLayout(s, body, r, middle, t)
    requires s[1] < 0x80 && s[body + 1] < 0x80 && s[middle + 1] < 0x80
    ensures body == 2 && r == 4 && t == middle + 2 && 5 <= middle <= 37 && 1 <= |s| - t <= 33
    ensures s[..4] == [0x30, |s| - 2, 0x02, middle - 4] && s[middle..t] == [0x02, |s| - t]
  {
  }

  lemma FourParts(s: bytes, i: nat, j: nat, k: nat)
    requires i <= j <= k <= |s|
    ensures s == s[..i] + s[i..j] + s[j..k] + s[k..]
  {
  }

  lemma ShortSignature(r: bytes, t: bytes)
    requires 1 <= |r| <= 33 && 1 <= |t| <= 33
    ensures SignatureOf([4 + |r| + |t|], [|r|], r, [|t|], t)
            == [0x30, 4 + |r| + |t|, 0x02, |r|] + r + [0x02, |t|] + t
  {
  }

  lemma ShortFormIsDer(s: bytes, body: nat, r: nat, middle: nat, t: nat)
    requires HasLayout(s, body, r, middle, t)
    requires s[1] < 0x80 && s[body + 1] < 0x80 && s[middle + 1] < 0x80
    requires IsMinimalInteger(s[r..middle]) && IsMinimalInteger(s[t..])
    ensures IsDer(s)
  {
    ShortFormLayout(s, body, r, middle, t);
    var first, second := s[4..middle], s[t..];
    FourParts(s, 4, middle, t);
    ShortSignature(first, second);
    assert IsDerOf(s, first, second);
  }

  lemma DerIsShortForm(s: bytes, body: nat, r: nat, middle: nat, t: nat)
    requires HasLayout(s, body, r, middle, t) && IsDer(s)
    ensures s[1] < 0x80 && s[body + 1] < 0x80 && s[middle + 1] < 0x80
    ensures IsMinimalInteger(s[r..middle]) && IsMinimalInteger(s[t..])
  {
    var first, second :| IsDerOf(s, first, second);
    DerLayout(s, first, second);
    LayoutIsUnique(s, body, r, middle, t, 2, 4, 4 + |first|, 6 + |first|);
  }

  /** The screen's distance from DER, exactly: an accepted string is DER iff its three
      lengths are in short form and both contents are minimal integers. */
  lemma AcceptedIsDerIff(s: bytes, body: nat, r: nat, middle: nat, t: nat)
    requires HasLayout(s, body, r, middle, t)
    ensures IsDer(s)
            <==> && s[1] < 0x80 && s[body + 1] < 0x80 && s[middle + 1] < 0x80
                 && IsMinimalInteger(s[r..middle]) && IsMinimalInteger(s[t..])
  {
    if IsDer(s) {
      DerIsShortForm(s, body, r, middle, t);
    }
    if && s[1] < 0x80 && s[body + 1] < 0x80 && s[middle + 1] < 0x80
       && IsMinimalInteger(s[r..middle]) && IsMinimalInteger(s[t..]) {
      ShortFormIsDer(s, body, r, middle, t);
    }
  }

  /** DER itself is accepted. */
  lemma DerIsAccepted(s: bytes)
    requires IsDer(s)
    ensures IsSignature(s)
  {
    var r, t :| IsDerOf(s, r, t);
    MinimalPairAccepted(r, t);
  }

  /** Every length minimal and still not DER: a needless zero in front of each content. */
  lemma PaddedPairAccepted()
    ensures
      var s := [0x30, 0x08, 0x02, 0x02, 0x00, 0x01, 0x02, 0x02, 0x00, 0x01];
      IsSignature(s) && HasLayout(s, 2, 4, 6, 8) && LengthsAreDer(s, 2, 4, 6, 8) && !IsDer(s)
  {
    var s: bytes := [0x30, 0x08, 0x02, 0x02, 0x00, 0x01, 0x02, 0x02, 0x00, 0x01];
    SignatureAssembles(s, 2, 4, 6, 8);
    LengthsAreDerIff(s, 2, 4, 6, 8);
    AcceptedIsDerIff(s, 2, 4, 6, 8);
    assert s[4..6] == [0x00, 0x01];
  }

  /** And minimal contents with a length in long form. */
  lemma LongFormIsNotDer()
    ensures
      var s := [0x30, 0x81, 0x06, 0x02, 0x01, 0x01, 0x02, 0x01, 0x01];
      IsSignature(s) && HasLayout(s, 3, 5, 6, 8) && !LengthsAreDer(s, 3, 5, 6, 8) && !IsDer(s)
  {
    var s: bytes := [0x30, 0x81, 0x06, 0x02, 0x01, 0x01, 0x02, 0x01, 0x01];
    assert s[1..3] == [0x81, 0x06];
    LongFormReads(s, 1, 0x06);
    SignatureAssembles(s, 3, 5, 6, 8);
    LengthsAreDerIff(s, 3, 5, 6, 8);
    AcceptedIsDerIff(s, 3, 5, 6, 8);
  }
}
