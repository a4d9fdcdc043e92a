/**
 The cursor-driven reader and the printer of ECDSA signatures
 (src/alternate/digest.rs). Every method is proved against DerSpec: the readers
 accept exactly the strings DerSpec produces, the printer produces them.
 */
module DerCodec {
  import opened Wrappers
  import opened Bytes
  import opened DerSpec

  /** Buffers of twice the field width, with framing, fit in a slice. */
  predicate FieldFits(field: nat) {
    0 < field <= 0x1000_0000_0000_0000
  }

  // ---- Printing -----------------------------------------------------------

  method DerLength(length: nat) returns (output: Octets)
    requires length < USIZE_LIMIT
    ensures output == LengthOctets(length)
  {
    if length < 128 {
      return [length as Byte];
    }
    var bytes := ToBe(length, 8);
    var start := FirstNonZero(bytes);
    StrippedWord(length);
    output := [(128 + (|bytes| - start)) as Byte];
    output := output + bytes[start..];
  }

  lemma StrippedWord(length: nat)
    requires 0 < length < USIZE_LIMIT
    ensures var bytes := ToBe(length, 8);
            FirstNonZero(bytes) < 8 && bytes[FirstNonZero(bytes)..] == MinimalBe(length)
  {
    var bytes := ToBe(length, 8);
    assert BeNat(bytes) == length by {
      UsizeIsEightOctets();
      BeNatToBe(length, 8);
    }
    assert MinimalBe(length) != [] by { MinimalBeDecodes(length); }
    StripIsMinimal(bytes);
  }

  method DerInteger(value: Octets) returns (output: Octets)
    requires 0 < |value| < MAX_SLICE
    ensures output == IntegerDer(BeNat(value))
  {
    var first := FirstNonZero(value);
    var trimmed := if first < |value| then value[first..] else value[|value| - 1..];
    var leadingZero := trimmed[0] >= 128;
    output := [TAG_INTEGER];
    var length := DerLength(|trimmed| + if leadingZero then 1 else 0);
    output := output + length;
    PrintedInteger(value);
    AppendTwice(output, [0], trimmed);
    if leadingZero {
      output := output + [0];
    }
    output := output + trimmed;
  }

  lemma AppendTwice(a: Octets, b: Octets, c: Octets)
    ensures a + b + c == a + (b + c)
  {
  }

  lemma PrintedInteger(value: Octets)
    requires value != []
    ensures var first := FirstNonZero(value);
            var trimmed := if first < |value| then value[first..] else value[|value| - 1..];
            IntegerContent(BeNat(value)) == if trimmed[0] >= 128 then [0] + trimmed else trimmed
  {
    StripIsMinimal(value);
    MinimalBeDecodes(BeNat(value));
    if FirstNonZero(value) == |value| {
      assert BeNat(value) == 0 by { MinimalBeDecodes(BeNat(value)); }
    }
  }

  // ---- Reading ------------------------------------------------------------

  method ExpectTag(input: Octets, cursor: nat, expected: Byte) returns (r: Result<()>, next: nat)
    requires cursor <= |input|
    ensures r.Ok? <==> [expected] <= input[cursor..]
    ensures next == if r.Ok? then cursor + 1 else cursor
  {
    if cursor == |input| || input[cursor] != expected {
      return Err(Crypto), cursor;
    }
    return Ok(()), cursor + 1;
  }

  /** The ways `read_length` refuses its input. */
  lemma NoLengthPrefix(s: Octets)
    requires s == [] ||
             (s[0] >= 128 &&
              var k := s[0] as int - 128;
              k == 0 || k > 8 || 1 + k > |s| || (k == 1 && s[1] < 128) || (k > 1 && s[1] == 0))
    ensures forall n: nat | n < USIZE_LIMIT :: !(LengthOctets(n) <= s)
  {
    if |s| > 1 {
      assert s[1..2] == [s[1]];
      assert BeNat([s[1]]) == s[1] as int;
    }
    forall n: nat | n < USIZE_LIMIT
      ensures !(LengthOctets(n) <= s)
    {
      if s != [] && LengthOctets(n) <= s {
        LengthPrefixShape(n, s);
      }
    }
  }

  method ReadLength(input: Octets, cursor: nat) returns (r: Result<nat>, next: nat)
    requires cursor <= |input| <= MAX_SLICE
    ensures cursor <= next <= |input|
    ensures r.Ok? ==> r.value < USIZE_LIMIT && input[cursor..next] == LengthOctets(r.value)
    ensures r.Err? ==> forall n: nat | n < USIZE_LIMIT :: !(LengthOctets(n) <= input[cursor..])
  {
    next := cursor;
    if next == |input| {
      RefusedLength(input, cursor);
      return Err(Crypto), next;
    }
    var first := input[next];
    next := next + 1;
    if first < 128 {
      return Ok(first as nat), next;
    }
    var count := (first - 128) as nat;
    if count == 0 || count > 8 || next + count > |input| {
      RefusedLength(input, cursor);
      return Err(Crypto), next;
    }
    r := ReadLongForm(input, next, count);
    if r.Err? {
      RefusedLength(input, cursor);
      return r, next;
    }
    LongFormAt(input, cursor, count, r.value);
    return r, next + count;
  }

  lemma RefusedLength(input: Octets, cursor: nat)
    requires cursor <= |input|
    requires cursor == |input| ||
             (input[cursor] >= 128 &&
              var k := input[cursor] as int - 128;
              k == 0 || k > 8 || cursor + 1 + k > |input|
              || (k == 1 && input[cursor + 1] < 128) || (k > 1 && input[cursor + 1] == 0))
    ensures forall n: nat | n < USIZE_LIMIT :: !(LengthOctets(n) <= input[cursor..])
  {
    NoLengthPrefix(input[cursor..]);
  }

  lemma LongFormAt(input: Octets, cursor: nat, count: nat, n: nat)
    requires 1 <= count <= 8 && cursor + 1 + count <= |input| && input[cursor] as nat == 128 + count
    requires LengthOctets(n) == [(128 + count) as Byte] + input[cursor + 1..cursor + 1 + count]
    ensures input[cursor..cursor + 1 + count] == LengthOctets(n)
  {
    SlicesJoin(input, cursor, cursor + 1, cursor + 1 + count);
    assert input[cursor..cursor + 1] == [input[cursor]];
  }

  /** The length octets behind a long-form first octet, and the two minimality tests. */
  method ReadLongForm(input: Octets, start: nat, count: nat) returns (r: Result<nat>)
    requires 1 <= count <= 8 && start + count <= |input|
    ensures r.Ok? ==> r.value < USIZE_LIMIT
                      && LengthOctets(r.value) == [(128 + count) as Byte] + input[start..start + count]
    ensures r.Err? ==> (count == 1 && input[start] < 128) || (count > 1 && input[start] == 0)
  {
    var length: nat := 0;
    for i := start to start + count
      invariant length == BeNat(input[start..i]) < USIZE_LIMIT
    {
      BeNatNext(input, start, i);
      EightOctetsFit(input[start..i + 1]);
      length := length * 256 % USIZE_LIMIT + input[i] as nat;
    }
    ghost var octets := input[start..start + count];
    if count == 1 && length < 128 {
      assert octets == [input[start]];
      assert BeNat([input[start]]) == input[start] as int;
      return Err(Crypto);
    }
    if count > 1 && input[start] == 0 {
      return Err(Crypto);
    }
    LongFormRead(octets, length);
    return Ok(length);
  }

  /** What passes the reader's two minimality tests is the long form. */
  lemma LongFormRead(octets: Octets, length: nat)
    requires 1 <= |octets| <= 8 && length == BeNat(octets)
    requires !(|octets| == 1 && length < 128) && !(|octets| > 1 && octets[0] == 0)
    ensures LengthOctets(length) == [(128 + |octets|) as Byte] + octets
  {
    if |octets| == 1 {
      assert octets == [octets[0]];
      assert BeNat([octets[0]]) == octets[0] as int;
    } else {
      NonZeroLead(octets);
      Pow256Monotone(1, |octets| - 1);
    }
    LongFormIsMinimal(length, octets);
  }

  /** The `expect_tag` and `read_length` calls both readers begin with. */
  method ReadHeader(input: Octets, cursor: nat, tag: Byte) returns (r: Result<nat>, next: nat)
    requires cursor <= |input| <= MAX_SLICE
    ensures cursor <= next <= |input|
    ensures r.Ok? ==> r.value < USIZE_LIMIT && input[cursor..next] == Header(tag, r.value)
    ensures r.Err? ==> forall n: nat | n < USIZE_LIMIT :: !(Header(tag, n) <= input[cursor..])
  {
    ghost var rest := input[cursor..];
    var expected;
    expected, next := ExpectTag(input, cursor, tag);
    if expected.Err? {
      return Err(expected.error), next;
    }
    assert input[next..] == rest[1..];
    r, next := ReadLength(input, next);
    if r.Err? {
      forall n: nat | n < USIZE_LIMIT
        ensures !(Header(tag, n) <= rest)
      {
        if Header(tag, n) <= rest {
          HeaderTail(tag, n, rest);
        }
      }
    }
  }

  method ReadInteger(input: Octets, cursor: nat) returns (r: Result<Octets>, next: nat)
    requires cursor <= |input| <= MAX_SLICE
    ensures cursor <= next <= |input|
    ensures r.Ok? ==> IsMinimalContent(r.value) && input[cursor..next] == IntegerDer(BeNat(r.value))
    ensures r.Err? ==> forall n: nat :: !(IntegerDer(n) <= input[cursor..])
  {
    var length;
    length, next := ReadHeader(input, cursor, TAG_INTEGER);
    if length.Err? {
      NoInteger(input[cursor..]);
      return Err(length.error), next;
    }
    r := ReadContent(input, next, length.value);
    if r.Err? {
      NoIntegerAt(input, cursor, next, length.value);
      return;
    }
    IntegerAt(input, cursor, next, next + length.value);
    next := next + length.value;
  }

  /** The checks of `read_integer` behind the header. */
  method ReadContent(input: Octets, start: nat, length: nat) returns (r: Result<Octets>)
    requires start <= |input| <= MAX_SLICE && length < USIZE_LIMIT
    ensures r.Ok? <==> start + length <= |input| && IsMinimalContent(input[start..start + length])
    ensures r.Ok? ==> r.value == input[start..start + length]
  {
    var end := (start + length) % USIZE_LIMIT;
    WrappedEnd(start, length, |input|);
    if end < start || end > |input| {
      return Err(Crypto);
    }
    var value := input[start..end];
    if value == [] || value[0] >= 128 {
      return Err(Crypto);
    }
    if |value| > 1 && value[0] == 0 && value[1] < 128 {
      return Err(Crypto);
    }
    return Ok(value);
  }

  lemma IntegerAt(input: Octets, cursor: nat, body: nat, end: nat)
    requires cursor <= body <= end <= |input|
    requires input[cursor..body] == Header(TAG_INTEGER, end - body)
    requires IsMinimalContent(input[body..end])
    ensures input[cursor..end] == IntegerDer(BeNat(input[body..end]))
  {
    assert input[cursor..end] == input[cursor..body] + input[body..end];
    HeaderAndContent(input[body..end]);
  }

  lemma HeaderAndContent(c: Octets)
    requires IsMinimalContent(c)
    ensures Header(TAG_INTEGER, |c|) + c == IntegerDer(BeNat(c))
  {
    MinimalContentUnique(c);
  }

  /** A sum past usize wraps below where it started, so no slice ends there. */
  lemma WrappedEnd(start: nat, length: nat, total: nat)
    requires start <= total <= MAX_SLICE && length < USIZE_LIMIT
    ensures var end := (start + length) % USIZE_LIMIT;
            && (start <= end <= total <==> start + length <= total)
            && (start <= end <= total ==> end == start + length)
            && (end == total <==> start + length == total)
  {
  }

  /** After the header of an integer of `length` octets comes either too little
      input, or content that is negative, empty or not minimal. */
  lemma NoIntegerAt(input: Octets, cursor: nat, body: nat, length: nat)
    requires cursor <= body <= |input| <= MAX_SLICE && length < USIZE_LIMIT
    requires input[cursor..body] == Header(TAG_INTEGER, length)
    requires body + length > |input| || !IsMinimalContent(input[body..body + length])
    ensures forall n: nat :: !(IntegerDer(n) <= input[cursor..])
  {
    var rest := input[cursor..];
    assert rest[..body - cursor] == input[cursor..body];
    if body + length <= |input| {
      assert rest[body - cursor..body - cursor + length] == input[body..body + length];
    }
    forall n: nat
      ensures !(IntegerDer(n) <= rest)
    {
      if IntegerDer(n) <= rest {
        ContentIsMinimal(n);
        TlvShape(TAG_INTEGER, IntegerContent(n), rest);
        HeaderPrefixUnique(TAG_INTEGER, |IntegerContent(n)|, length, rest);
      }
    }
  }

  lemma NoInteger(s: Octets)
    requires |s| <= MAX_SLICE
    requires forall n: nat | n < USIZE_LIMIT :: !(Header(TAG_INTEGER, n) <= s)
    ensures forall n: nat :: !(IntegerDer(n) <= s)
  {
    forall n: nat
      ensures !(IntegerDer(n) <= s)
    {
      if IntegerDer(n) <= s {
        TlvShape(TAG_INTEGER, IntegerContent(n), s);
      }
    }
  }

  // ---- Whole signatures ---------------------------------------------------

  ghost predicate IsSignatureDer(field: nat, der: Octets, r: nat, s: nat) {
    r < Pow256(field) && s < Pow256(field) && der == SignatureDer(r, s)
  }

  /** r || s, each `field` octets wide. */
  function RawSignature(field: nat, r: nat, s: nat): (raw: Octets)
    ensures |raw| == 2 * field
  {
    ToBe(r, field) + ToBe(s, field)
  }

  /** The decoder as a relation: a string is accepted when it is the encoding of
      some pair of field-wide integers. */
  ghost function DecodeSignature(field: nat, der: Octets): Result<Octets> {
    if exists r, s :: IsSignatureDer(field, der, r, s) then
      var r, s :| IsSignatureDer(field, der, r, s);
      Ok(RawSignature(field, r, s))
    else
      Err(Crypto)
  }

  /** Right-aligning a value without surplus zeros in a field. */
  lemma RightAligned(trimmed: Octets, width: nat)
    requires trimmed == [0] || (trimmed != [] && trimmed[0] != 0)
    requires width > 0
    ensures |trimmed| <= width <==> BeNat(trimmed) < Pow256(width)
    ensures |trimmed| <= width ==>
              Zeros(width - |trimmed|) + trimmed == ToBe(BeNat(trimmed), width)
  {
    var n := BeNat(trimmed);
    MinimalBeLength(n, width);
    if trimmed[0] != 0 {
      MinimalBeUnique(trimmed);
    } else {
      assert n == BeNat([]) == 0;
    }
    if |trimmed| <= width {
      BeNatLeadingZeros(width - |trimmed|, trimmed);
      ToBeBeNat(Zeros(width - |trimmed|) + trimmed);
    }
  }

  ghost predicate NoSignature(der: Octets) {
    forall r: nat, s: nat :: der != SignatureDer(r, s)
  }

  /** Refusals at the SEQUENCE header. */
  lemma NoSignatureHeader(der: Octets)
    requires |der| <= MAX_SLICE
    requires forall n: nat | n < USIZE_LIMIT :: !(Header(TAG_SEQUENCE, n) <= der)
    ensures NoSignature(der)
  {
    forall r: nat, s: nat
      ensures der != SignatureDer(r, s)
    {
      if der == SignatureDer(r, s) {
        TlvShape(TAG_SEQUENCE, IntegerDer(r) + IntegerDer(s), der);
      }
    }
  }

  /** Refusals behind a good SEQUENCE header. */
  lemma NoSignatureBody(der: Octets, n: nat)
    requires |der| <= MAX_SLICE && n < USIZE_LIMIT && Header(TAG_SEQUENCE, n) <= der
    requires var body := |Header(TAG_SEQUENCE, n)|;
             || body + n != |der|
             || forall r: nat, s: nat :: der[body..] != IntegerDer(r) + IntegerDer(s)
    ensures NoSignature(der)
  {
    forall r: nat, s: nat
      ensures der != SignatureDer(r, s)
    {
      if der == SignatureDer(r, s) {
        var content := IntegerDer(r) + IntegerDer(s);
        TlvShape(TAG_SEQUENCE, content, der);
        HeaderPrefixUnique(TAG_SEQUENCE, n, |content|, der);
      }
    }
  }

  /** The decoder's result does not depend on the choice of integers. */
  lemma DecodesTo(field: nat, der: Octets, r: nat, s: nat)
    requires IsSignatureDer(field, der, r, s) && |der| <= MAX_SLICE
    ensures DecodeSignature(field, der) == Ok(RawSignature(field, r, s))
  {
    forall r', s' | IsSignatureDer(field, der, r', s')
      ensures r' == r && s' == s
    {
      SignatureDerInjective(r, s, r', s');
    }
  }

  /** The field from lo to hi holds n, and nothing else of the buffer changed. */
  ghost predicate FieldHolds(before: Octets, after: Octets, lo: nat, hi: nat, n: nat)
    requires lo <= hi <= |before| == |after|
  {
    && (forall i :: lo <= i < hi ==> after[i] == ToBe(n, hi - lo)[i - lo])
    && (forall i :: 0 <= i < |before| && !(lo <= i < hi) ==> after[i] == before[i])
  }

  method CopyInteger(value: Octets, output: array<Byte>, lo: nat, hi: nat) returns (r: Result<()>)
    requires lo < hi <= output.Length && forall i :: lo <= i < hi ==> output[i] == 0
    requires IsMinimalContent(value)
    modifies output
    ensures r.Ok? <==> BeNat(value) < Pow256(hi - lo)
    ensures r.Ok? ==> FieldHolds(old(output[..]), output[..], lo, hi, BeNat(value))
  {
    var trimmed := if |value| > 1 && value[0] == 0 then value[1..] else value;
    assert BeNat(trimmed) == BeNat(value) by {
      BeNatLeadingZeros(1, value[1..]);
      assert value[0] == 0 ==> value == Zeros(1) + value[1..];
    }
    RightAligned(trimmed, hi - lo);
    r := CopyAligned(trimmed, output, lo, hi, BeNat(value));
  }

  /** The tail shared by `copy_integer` and `copy_raw_component`. */
  method CopyAligned(trimmed: Octets, output: array<Byte>, lo: nat, hi: nat, ghost n: nat)
    returns (r: Result<()>)
    requires lo < hi <= output.Length && forall i :: lo <= i < hi ==> output[i] == 0
    requires |trimmed| <= hi - lo ==> Zeros(hi - lo - |trimmed|) + trimmed == ToBe(n, hi - lo)
    modifies output
    ensures r.Ok? <==> |trimmed| <= hi - lo
    ensures r.Ok? ==> FieldHolds(old(output[..]), output[..], lo, hi, n)
  {
    if |trimmed| > hi - lo {
      return Err(Crypto);
    }
    var offset := hi - |trimmed|;
    forall i | 0 <= i < |trimmed| {
      output[offset + i] := trimmed[i];
    }
    ghost var held := Zeros(hi - lo - |trimmed|) + trimmed;
    forall i | lo <= i < hi
      ensures output[i] == held[i - lo]
    {
      if i >= offset {
        assert output[offset + (i - offset)] == trimmed[i - offset];
      }
    }
    return Ok(());
  }

  method CopyRawComponent(value: Octets, output: array<Byte>, lo: nat, hi: nat) returns (r: Result<()>)
    requires lo < hi <= output.Length && forall i :: lo <= i < hi ==> output[i] == 0
    modifies output
    ensures r.Ok? <==> BeNat(value) < Pow256(hi - lo)
    ensures r.Ok? ==> FieldHolds(old(output[..]), output[..], lo, hi, BeNat(value))
  {
    var trimmed := TrimRaw(value);
    TrimmedRawAligned(value, hi - lo);
    r := CopyAligned(trimmed, output, lo, hi, BeNat(value));
  }

  /** A raw component without its leading zeros, keeping one octet of a zero. */
  function TrimRaw(value: Octets): (trimmed: Octets) {
    var first := FirstNonZero(value);
    if first < |value| then value[first..] else value[if |value| == 0 then 0 else |value| - 1..]
  }

  lemma TrimmedRawAligned(value: Octets, width: nat)
    requires width > 0
    ensures var trimmed := TrimRaw(value);
            && (|trimmed| <= width <==> BeNat(value) < Pow256(width))
            && (|trimmed| <= width ==>
                  Zeros(width - |trimmed|) + trimmed == ToBe(BeNat(value), width))
  {
    var trimmed := TrimRaw(value);
    var first := FirstNonZero(value);
    if value == [] {
      BeNatToBe(0, width);
      BeNatZeros(width);
      BeNatInjective(Zeros(width), ToBe(0, width));
    } else {
      var skipped := |value| - |trimmed|;
      assert value == Zeros(skipped) + trimmed;
      BeNatLeadingZeros(skipped, trimmed);
      RightAligned(trimmed, width);
    }
  }

  /** The SEQUENCE header, which must announce the rest of the input. */
  method ReadSequenceHeader(der: Octets) returns (r: Result<nat>)
    requires |der| <= MAX_SLICE
    ensures r.Ok? ==> r.value <= |der| && der[..r.value] == Header(TAG_SEQUENCE, |der| - r.value)
    ensures r.Err? ==> NoSignature(der)
  {
    var length, cursor := ReadHeader(der, 0, TAG_SEQUENCE);
    if length.Err? {
      assert der[0..] == der;
      NoSignatureHeader(der);
      return Err(length.error);
    }
    assert der[..cursor] == der[0..cursor];
    WrappedEnd(cursor, length.value, |der|);
    if (cursor + length.value) % USIZE_LIMIT != |der| {
      NoSignatureBody(der, length.value);
      return Err(Crypto);
    }
    return Ok(cursor);
  }

  /** The parsing half of `der_signature_to_raw`. */
  method ReadSignature(der: Octets) returns (r: Result<(Octets, Octets)>)
    requires |der| <= MAX_SLICE
    ensures r.Ok? ==>
              && IsMinimalContent(r.value.0) && IsMinimalContent(r.value.1)
              && der == SignatureDer(BeNat(r.value.0), BeNat(r.value.1))
    ensures r.Err? ==> NoSignature(der)
  {
    var body := ReadSequenceHeader(der);
    if body.Err? {
      return Err(body.error);
    }
    r := ReadIntegers(der, body.value);
    if r.Err? {
      NoSignatureBody(der, |der| - body.value);
      return;
    }
    Assembled(der, body.value, |der| - body.value, BeNat(r.value.0), BeNat(r.value.1));
  }

  /** Both integers, and nothing behind them. */
  method ReadIntegers(der: Octets, start: nat) returns (r: Result<(Octets, Octets)>)
    requires start <= |der| <= MAX_SLICE
    ensures r.Ok? ==>
              && IsMinimalContent(r.value.0) && IsMinimalContent(r.value.1)
              && der[start..] == IntegerDer(BeNat(r.value.0)) + IntegerDer(BeNat(r.value.1))
    ensures r.Err? ==> forall x: nat, y: nat :: der[start..] != IntegerDer(x) + IntegerDer(y)
  {
    ghost var rest := der[start..];
    var first, cursor := ReadInteger(der, start);
    if first.Err? {
      NoFirstInteger(rest);
      return Err(first.error);
    }
    ghost var x := BeNat(first.value);
    ghost var middle := cursor;
    assert rest[..middle - start] == der[start..middle];
    assert rest[middle - start..] == der[middle..];
    var second;
    second, cursor := ReadInteger(der, cursor);
    if second.Err? {
      NoSecondInteger(rest, x, middle - start);
      return Err(second.error);
    }
    ghost var y := BeNat(second.value);
    SlicesJoin(der, start, middle, cursor);
    if cursor != |der| {
      NoTrailing(rest, x, y);
      return Err(Crypto);
    }
    return Ok((first.value, second.value));
  }

  lemma SlicesJoin(der: Octets, start: nat, middle: nat, end: nat)
    requires start <= middle <= end <= |der|
    ensures der[start..end] == der[start..middle] + der[middle..end]
    ensures der[start..][..end - start] == der[start..end]
  {
  }

  lemma Assembled(der: Octets, body: nat, length: nat, x: nat, y: nat)
    requires body <= |der| && body + length == |der|
    requires der[..body] == Header(TAG_SEQUENCE, length)
    requires der[body..] == IntegerDer(x) + IntegerDer(y)
    ensures der == SignatureDer(x, y)
  {
    assert der == der[..body] + der[body..];
  }

  lemma NoFirstInteger(s: Octets)
    requires forall n: nat :: !(IntegerDer(n) <= s)
    ensures forall x: nat, y: nat :: s != IntegerDer(x) + IntegerDer(y)
  {
    forall x: nat, y: nat
      ensures s != IntegerDer(x) + IntegerDer(y)
    {
      assert IntegerDer(x) <= IntegerDer(x) + IntegerDer(y);
    }
  }

  /** The first integer of a body is the one that was read. */
  lemma FirstIntegerIs(s: Octets, x: nat, x': nat, y': nat)
    requires |s| <= MAX_SLICE && IntegerDer(x) <= s && s == IntegerDer(x') + IntegerDer(y')
    ensures x == x' && s[|IntegerDer(x)|..] == IntegerDer(y')
  {
    IntegerPrefixUnique(x, x', s);
  }

  lemma NoSecondInteger(s: Octets, x: nat, used: nat)
    requires |s| <= MAX_SLICE && used <= |s| && s[..used] == IntegerDer(x)
    requires forall n: nat :: !(IntegerDer(n) <= s[used..])
    ensures forall x': nat, y: nat :: s != IntegerDer(x') + IntegerDer(y)
  {
    forall x': nat, y: nat
      ensures s != IntegerDer(x') + IntegerDer(y)
    {
      if s == IntegerDer(x') + IntegerDer(y) {
        FirstIntegerIs(s, x, x', y);
      }
    }
  }

  lemma NoTrailing(s: Octets, x: nat, y: nat)
    requires IntegerDer(x) + IntegerDer(y) <= s && |IntegerDer(x) + IntegerDer(y)| < |s| <= MAX_SLICE
    ensures forall x': nat, y': nat :: s != IntegerDer(x') + IntegerDer(y')
  {
    var (a, b) := (IntegerDer(x), IntegerDer(y));
    assert a + b == s[..|a + b|];
    assert s[..|a|] == a;
    assert s[|a|..][..|b|] == b;
    forall x': nat, y': nat
      ensures s != IntegerDer(x') + IntegerDer(y')
    {
      if s == IntegerDer(x') + IntegerDer(y') {
        FirstIntegerIs(s, x, x', y');
        IntegerPrefixUnique(y, y', s[|a|..]);
      }
    }
  }

  /** The decoder accepts the encodings of two integers that fit the field, and
      the halves of its result encode those. */
  lemma DecodesExactly(field: nat, der: Octets)
    ensures DecodeSignature(field, der).Ok? <==>
            exists x: nat, y: nat :: x < Pow256(field) && y < Pow256(field) && der == SignatureDer(x, y)
    ensures DecodeSignature(field, der).Ok? ==>
              var raw := DecodeSignature(field, der).value;
              |raw| == 2 * field && der == SignatureDer(BeNat(raw[..field]), BeNat(raw[field..]))
  {
    if x: nat, y: nat :| x < Pow256(field) && y < Pow256(field) && der == SignatureDer(x, y) {
      assert IsSignatureDer(field, der, x, y);
    }
    if DecodeSignature(field, der).Ok? {
      var x, y :| IsSignatureDer(field, der, x, y) && DecodeSignature(field, der) == Ok(RawSignature(field, x, y));
      RawHalves(field, x, y);
    }
  }

  method DerSignatureToRaw(field: nat, der: Octets) returns (r: Result<Octets>)
    requires FieldFits(field) && |der| <= MAX_SLICE
    ensures r == DecodeSignature(field, der)
  {
    var parsed := ReadSignature(der);
    if parsed.Err? {
      return Err(Crypto);
    }
    var (first, second) := parsed.value;
    ghost var (x, y) := (BeNat(first), BeNat(second));
    var raw := new Byte[field * 2](_ => 0);
    ghost var empty := raw[..];
    var copied := CopyInteger(first, raw, 0, field);
    if copied.Err? {
      TooWide(field, der, x, y);
      return Err(Crypto);
    }
    ghost var half := raw[..];
    copied := CopyInteger(second, raw, field, 2 * field);
    if copied.Err? {
      TooWide(field, der, x, y);
      return Err(Crypto);
    }
    DecodesTo(field, der, x, y);
    BothFieldsHeld(field, empty, half, raw[..], x, y);
    return Ok(raw[..]);
  }

  lemma BothFieldsHeld(field: nat, empty: Octets, half: Octets, full: Octets, r: nat, s: nat)
    requires |empty| == |half| == |full| == 2 * field
    requires FieldHolds(empty, half, 0, field, r) && FieldHolds(half, full, field, 2 * field, s)
    ensures full == RawSignature(field, r, s)
  {
    forall i | 0 <= i < field
      ensures full[i] == ToBe(r, field)[i]
    {
      assert full[i] == half[i];
    }
  }

  lemma TooWide(field: nat, der: Octets, r: nat, s: nat)
    requires der == SignatureDer(r, s) && |der| <= MAX_SLICE
    requires r >= Pow256(field) || s >= Pow256(field)
    ensures DecodeSignature(field, der) == Err(Crypto)
  {
    forall r', s'
      ensures !IsSignatureDer(field, der, r', s')
    {
      if IsSignatureDer(field, der, r', s') {
        SignatureDerInjective(r, s, r', s');
      }
    }
  }

  // ---- The dispatcher -----------------------------------------------------

  /** The integers in the two halves of an even-length string. */
  function Halves(raw: Octets): (nat, nat) {
    (BeNat(raw[..|raw| / 2]), BeNat(raw[|raw| / 2..]))
  }

  /** The raw branch: both integers must fit the field. */
  ghost function EncodedHalves(field: nat, raw: Octets): Result<Octets> {
    var (x, y) := Halves(raw);
    if x < Pow256(field) && y < Pow256(field) then Ok(SignatureDer(x, y)) else Err(Crypto)
  }

  /** What `raw_signature_to_der` must return: a signature already in DER, unless
      it has the exact raw width, is its own result; any other string of even
      length is split into two integers. */
  ghost function EncodeSignature(field: nat, raw: Octets): Result<Octets> {
    if |raw| != 2 * field && DecodeSignature(field, raw).Ok? then
      Ok(raw)
    else if |raw| < 2 || |raw| % 2 != 0 then
      Err(Crypto)
    else
      EncodedHalves(field, raw)
  }

  /** `raw` is an encoding already: it does not have the exact raw width and
      encodes two integers that fit the field. */
  ghost predicate AlreadyDer(field: nat, raw: Octets) {
    && |raw| != 2 * field
    && exists x: nat, y: nat :: x < Pow256(field) && y < Pow256(field) && raw == SignatureDer(x, y)
  }

  /** `raw` splits in two halves whose integers fit the field. */
  predicate SplitsInHalves(field: nat, raw: Octets) {
    && |raw| >= 2 && |raw| % 2 == 0
    && BeNat(raw[..|raw| / 2]) < Pow256(field) && BeNat(raw[|raw| / 2..]) < Pow256(field)
  }

  /** What is accepted, and what is returned for it. */
  lemma EncodesExactly(field: nat, raw: Octets)
    ensures EncodeSignature(field, raw).Ok? <==> AlreadyDer(field, raw) || SplitsInHalves(field, raw)
    ensures AlreadyDer(field, raw) ==> EncodeSignature(field, raw) == Ok(raw)
    ensures !AlreadyDer(field, raw) && SplitsInHalves(field, raw) ==>
              EncodeSignature(field, raw) ==
              Ok(SignatureDer(BeNat(raw[..|raw| / 2]), BeNat(raw[|raw| / 2..])))
  {
    DecodesExactly(field, raw);
  }

  method RawSignatureToDer(field: nat, raw: Octets) returns (r: Result<Octets>)
    requires FieldFits(field) && |raw| <= MAX_SLICE
    ensures r == EncodeSignature(field, raw)
    ensures r.Ok? <==> AlreadyDer(field, raw) || SplitsInHalves(field, raw)
    ensures AlreadyDer(field, raw) ==> r == Ok(raw)
    ensures !AlreadyDer(field, raw) && SplitsInHalves(field, raw) ==>
              r == Ok(SignatureDer(BeNat(raw[..|raw| / 2]), BeNat(raw[|raw| / 2..])))
    decreases |raw| != 2 * field
  {
    EncodesExactly(field, raw);
    if |raw| > 0 && raw[0] == 0x30 && |raw| != field * 2 {
      var decoded := DerSignatureToRaw(field, raw);
      if decoded.Ok? {
        ReencodeDecoded(field, raw);
        r := RawSignatureToDer(field, decoded.value);
        return;
      }
    }
    OnlyTaggedDecodes(field, raw);
    if |raw| < 2 || |raw| % 2 != 0 {
      return Err(Crypto);
    }
    r := EncodeHalves(field, raw);
  }

  /** Both halves at fixed width, in one buffer. */
  method NormalizeHalves(field: nat, raw: Octets) returns (r: Result<Octets>)
    requires FieldFits(field) && 2 <= |raw| <= MAX_SLICE && |raw| % 2 == 0
    ensures var (x, y) := Halves(raw);
            r == if x < Pow256(field) && y < Pow256(field) then Ok(RawSignature(field, x, y)) else Err(Crypto)
  {
    ghost var (x, y) := Halves(raw);
    var half := |raw| / 2;
    var normalized := new Byte[field * 2](_ => 0);
    ghost var empty := normalized[..];
    var copied := CopyRawComponent(raw[..half], normalized, 0, field);
    if copied.Err? {
      return Err(Crypto);
    }
    ghost var first := normalized[..];
    copied := CopyRawComponent(raw[half..], normalized, field, 2 * field);
    if copied.Err? {
      return Err(Crypto);
    }
    BothFieldsHeld(field, empty, first, normalized[..], x, y);
    return Ok(normalized[..]);
  }

  /** The raw branch of `raw_signature_to_der`. */
  method EncodeHalves(field: nat, raw: Octets) returns (r: Result<Octets>)
    requires FieldFits(field) && 2 <= |raw| <= MAX_SLICE && |raw| % 2 == 0
    ensures r == EncodedHalves(field, raw)
  {
    var normalized := NormalizeHalves(field, raw);
    if normalized.Err? {
      return normalized;
    }
    RawHalves(field, Halves(raw).0, Halves(raw).1);
    r := PrintSignature(field, normalized.value[..field], normalized.value[field..]);
  }

  /** The printing tail of `raw_signature_to_der`. */
  method PrintSignature(field: nat, first: Octets, second: Octets) returns (r: Result<Octets>)
    requires FieldFits(field) && |first| == |second| == field
    ensures r == Ok(SignatureDer(BeNat(first), BeNat(second)))
  {
    var x := DerInteger(first);
    var y := DerInteger(second);
    IntegerLength(first);
    IntegerLength(second);
    var content := x + y;
    var output := [TAG_SEQUENCE];
    var length := DerLength(|content|);
    output := output + length;
    output := output + content;
    return Ok(output);
  }

  lemma IntegerLength(value: Octets)
    requires |value| < MAX_SLICE
    ensures |IntegerDer(BeNat(value))| <= |value| + 11
  {
    var n := BeNat(value);
    BeNatBound(value);
    ContentLength(n, |value|);
    UsizeIsEightOctets();
    MinimalBeLength(|IntegerContent(n)|, 8);
  }

  /** Splitting and decoding r || s gives r and s back. */
  lemma RawHalves(field: nat, r: nat, s: nat)
    requires r < Pow256(field) && s < Pow256(field)
    ensures var raw := RawSignature(field, r, s);
            BeNat(raw[..field]) == r && BeNat(raw[field..]) == s && Halves(raw) == (r, s)
  {
    var raw := RawSignature(field, r, s);
    assert raw[..field] == ToBe(r, field) && raw[field..] == ToBe(s, field);
    BeNatToBe(r, field);
    BeNatToBe(s, field);
  }

  /** A raw signature of the exact width is encoded as its two integers. */
  lemma EncodesRaw(field: nat, r: nat, s: nat)
    requires FieldFits(field) && r < Pow256(field) && s < Pow256(field)
    ensures EncodeSignature(field, RawSignature(field, r, s)) == Ok(SignatureDer(r, s))
  {
    RawHalves(field, r, s);
  }

  /** The one recursive call prints the DER it was parsed from. */
  lemma ReencodeDecoded(field: nat, der: Octets)
    requires FieldFits(field) && |der| <= MAX_SLICE && DecodeSignature(field, der).Ok?
    ensures EncodeSignature(field, DecodeSignature(field, der).value) == Ok(der)
  {
    var r, s :| IsSignatureDer(field, der, r, s);
    DecodesTo(field, der, r, s);
    EncodesRaw(field, r, s);
  }

  lemma OnlyTaggedDecodes(field: nat, raw: Octets)
    ensures DecodeSignature(field, raw).Ok? ==> raw != [] && raw[0] == TAG_SEQUENCE
  {
  }
}
