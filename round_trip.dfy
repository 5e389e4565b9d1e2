/**
 * What `extract` reads back from a header that `inject` wrote. As written, `Display::fmt`
 * renders the trace id in decimal while `extract` parses it as hexadecimal, so the round
 * trip keeps the trace id only for trace ids below 10; the hexadecimal rendering the crate
 * evidently intends makes `extract` read back exactly a child of the injected context.
 */
module RoundTrip {
  import opened Wrappers
  import opened Radix
  import opened Strings
  import opened TraceContexts

  /** A hex field rendered by the crate parses back, as the field's type, to its value. */
  lemma HexFieldReadsBack(f: seq<string>, k: nat, n: nat, width: nat)
    requires k < |f| && k < 4 && f[k] == FormatPadded(n, 16, width) && n <= FieldMax[k]
    ensures FieldParses(f, k) && FieldValue(f, k) == n
  {
    FormatPaddedValue(n, 16, width);
    LowerHexLiteral(f[k], FieldMax[k]);
  }

  /** A trace id rendered in 32 hex digits parses back as a u128 field. */
  lemma TraceIdFieldReadsBack(f: seq<string>, traceId: u128)
    requires |f| == 4 && f[1] == FormatPadded(traceId, 16, 32)
    ensures FieldParses(f, 1) && FieldValue(f, 1) == traceId
  {
    HexFieldReadsBack(f, 1, traceId, 32);
  }

  /**
   * The version, parent id and flags fields, which both renderings write in hex, parse
   * back to the context's version, id and flags.
   */
  lemma OuterFieldsReadBack(f: seq<string>, c: TraceContext)
    requires |f| == 4 && f[0] == FormatPadded(c.version, 16, 2)
    requires f[2] == FormatPadded(c.id, 16, 16) && f[3] == FormatPadded(c.flags as nat, 16, 2)
    ensures FieldParses(f, 0) && FieldValue(f, 0) == c.version
    ensures FieldParses(f, 2) && FieldValue(f, 2) == c.id
    ensures FieldParses(f, 3) && FieldValue(f, 3) == c.flags as nat
  {
    HexFieldReadsBack(f, 0, c.version, 2);
    HexFieldReadsBack(f, 2, c.id, 16);
    FlagsAsNumber(c.flags);
    HexFieldReadsBack(f, 3, c.flags as nat, 2);
  }

  /**
   * The trace id `extract` reads from the as-written rendering of `traceId`: its decimal
   * digits taken as hexadecimal. Never smaller than the trace id, and equal to it exactly
   * when the trace id is a single digit.
   */
  function MisreadTraceId(traceId: nat): (v: nat)
    ensures v >= traceId && (v == traceId <==> traceId < 10)
  {
    var s := FormatPadded(traceId, 10, 32);
    FormatPaddedValue(traceId, 10, 32);
    DecimalReadAsHex(s);
    Value(s, 16)
  }

  /**
   * A trace id below 10^32 is rendered in 32 decimal digits, which `u128::from_str_radix`
   * accepts as hexadecimal, reading the misread trace id.
   */
  lemma DecimalTraceIdReadAsHex(traceId: nat)
    requires traceId < Pow(10, 32)
    ensures var s := FormatPadded(traceId, 10, 32);
      IsUnsignedLiteral(s, 16, MaxU128) && Value(Magnitude(s), 16) == MisreadTraceId(traceId)
  {
    var s := FormatPadded(traceId, 10, 32);
    DigitCount(traceId, 10, 32);
    assert |s| == 32;
    DecimalReadAsHex(s);
    ShortHexFits(s);
    LowerHexLiteral(s, MaxU128);
  }

  /** Thirty-two hex digits always fit a u128. */
  lemma ShortHexFits(s: string)
    requires |s| == 32 && AllDigits(s, 16)
    ensures Value(s, 16) <= MaxU128
  {
    ValueBelowPow(s, 16);
    HexPowers();
  }

  /**
   * A trace id of 10^32 or more is rendered in 33 or more decimal digits with a nonzero
   * first digit; read as hexadecimal that exceeds the u128 range.
   */
  lemma DecimalTraceIdOverflows(traceId: nat)
    requires traceId >= Pow(10, 32)
    ensures FromStrRadix(FormatPadded(traceId, 10, 32), 16, MaxU128) == Err(PosOverflow)
  {
    var s := FormatPadded(traceId, 10, 32);
    DigitCount(traceId, 10, 32);
    assert s == ToDigits(traceId, 10) && |s| >= 33;
    ToDigitsShape(traceId, 10);
    assert IsLowerHexDigit(s[0]) && DigitValue(s[0]) >= 1;
    assert Magnitude(s) == s;
    DecimalReadAsHex(s);
    LongHexOverflows(s);
  }

  /** Thirty-three or more hex digits, the first nonzero, are worth more than any u128. */
  lemma LongHexOverflows(s: string)
    requires |s| >= 33 && AllDigits(s, 16) && DigitValue(s[0]) >= 1
    ensures Value(s, 16) > MaxU128
  {
    LeadingDigitBound(s, 16);
    PowMonotone(16, 32, |s| - 1);
    HexPowers();
  }

  /** The flags survive their trip through a number. */
  lemma FlagsAsNumber(flags: bv8)
    ensures (flags as nat) as bv8 == flags && flags as nat <= MaxU8
  {
  }

  /** In the intended rendering every field parses back to its value. */
  lemma IntendedFieldsParse(c: TraceContext)
    ensures var f := Fields(c, 16);
      && FieldParses(f, 0) && FieldParses(f, 1) && FieldParses(f, 2) && FieldParses(f, 3)
      && FieldValue(f, 0) == c.version && FieldValue(f, 1) == c.traceId
      && FieldValue(f, 2) == c.id && FieldValue(f, 3) == c.flags as nat
  {
    var f := [FormatPadded(c.version, 16, 2), FormatPadded(c.traceId, 16, 32),
              FormatPadded(c.id, 16, 16), FormatPadded(c.flags as nat, 16, 2)];
    assert Fields(c, 16) == f;
    OuterFieldsReadBack(f, c);
    TraceIdFieldReadsBack(f, c.traceId);
  }

  /**
   * In the as-written rendering of a trace id below 10^32 every field parses, and the
   * trace id field reads as the misread trace id.
   */
  lemma DecimalFieldsParse(c: TraceContext)
    requires c.traceId < Pow(10, 32)
    ensures var f := Fields(c, 10);
      && FieldParses(f, 0) && FieldParses(f, 1) && FieldParses(f, 2) && FieldParses(f, 3)
      && FieldValue(f, 0) == c.version && FieldValue(f, 1) == MisreadTraceId(c.traceId)
      && FieldValue(f, 2) == c.id && FieldValue(f, 3) == c.flags as nat
  {
    var f := [FormatPadded(c.version, 16, 2), FormatPadded(c.traceId, 10, 32),
              FormatPadded(c.id, 16, 16), FormatPadded(c.flags as nat, 16, 2)];
    assert Fields(c, 10) == f;
    OuterFieldsReadBack(f, c);
    DecimalTraceIdField(f, c.traceId);
  }

  /** A trace id below 10^32, rendered in decimal, parses as a u128 field to the misread trace id. */
  lemma DecimalTraceIdField(f: seq<string>, traceId: nat)
    requires |f| == 4 && f[1] == FormatPadded(traceId, 10, 32) && traceId < Pow(10, 32)
    ensures FieldParses(f, 1) && FieldValue(f, 1) == MisreadTraceId(traceId)
  {
    DecimalTraceIdReadAsHex(traceId);
    assert FieldMax[1] == MaxU128;
  }

  /**
   * In the as-written rendering of a trace id of 10^32 or more the version parses and
   * the trace id overflows u128.
   */
  lemma DecimalFieldsOverflow(c: TraceContext)
    requires c.traceId >= Pow(10, 32)
    ensures var f := Fields(c, 10);
      FieldParses(f, 0) && ParseField(f, 1) == Err(PosOverflow)
  {
    var f := Fields(c, 10);
    DecimalTraceIdOverflows(c.traceId);
    TraceIdFieldOverflows(f, f[1]);
    HexFieldReadsBack(f, 0, c.version, 2);
  }

  /** A trace id field that overflows u128 fails to parse as a field, with PosOverflow. */
  lemma TraceIdFieldOverflows(f: seq<string>, t: string)
    requires |f| == 4 && f[1] == t && FromStrRadix(t, 16, MaxU128) == Err(PosOverflow)
    ensures ParseField(f, 1) == Err(PosOverflow)
  {
    assert FieldMax[1] == MaxU128;
  }

  /**
   * `extract` after `inject`, as written: it yields a context exactly when the trace id
   * is below 10^32, and then the context is a child of the injected one in version, flags
   * and parent id, but its trace id is the misread one (equal only for trace ids below
   * 10). Any larger trace id fails with PosOverflow.
   */
  lemma InjectThenExtract(c: TraceContext, headers: map<string, string>, freshId: u64, freshTraceId: u128)
    ensures var r := Extract(headers[TraceparentKey := Render(c)], freshId, freshTraceId);
      && (r.Extracted? <==> c.traceId < Pow(10, 32))
      && (r.Extracted? ==>
            && r.context.traceId == MisreadTraceId(c.traceId)
            && r.context == Child(c, freshId).(traceId := r.context.traceId))
      && (!r.Extracted? ==> r == Failed(ParseIntError(PosOverflow)))
  {
    var text := Render(c);
    assert Extract(headers[TraceparentKey := text], freshId, freshTraceId) == ExtractValue(text, freshId);
    if c.traceId < Pow(10, 32) {
      DecimalFieldsParse(c);
      FlagsAsNumber(c.flags);
      ExtractValueSucceeds(text, freshId);
    } else {
      DecimalFieldsOverflow(c);
    }
  }

  /** For a single-digit trace id the round trip reads back a child of the injected context. */
  lemma InjectThenExtractIsChild(c: TraceContext, headers: map<string, string>, freshId: u64, freshTraceId: u128)
    requires c.traceId < 10
    ensures Extract(headers[TraceparentKey := Render(c)], freshId, freshTraceId) == Extracted(Child(c, freshId))
  {
    PowAtLeastBase(10, 32);
    InjectThenExtract(c, headers, freshId, freshTraceId);
  }

  /**
   * The smallest trace id the round trip changes: 16 is rendered as thirty zeros and
   * `16`, which `extract` reads as 0x16, that is 22.
   */
  lemma SixteenReadsBackAs22(c: TraceContext, headers: map<string, string>, freshId: u64, freshTraceId: u128)
    requires c.traceId == 16
    ensures var r := Extract(headers[TraceparentKey := Render(c)], freshId, freshTraceId);
      r.Extracted? && r.context.traceId == 22
  {
    PowAtLeastBase(10, 32);
    InjectThenExtract(c, headers, freshId, freshTraceId);
    MisreadSixteen();
  }

  /** Sixteen is rendered as thirty zeros and `16`, which reads as 0x16 in hexadecimal. */
  lemma MisreadSixteen()
    ensures MisreadTraceId(16) == 22
  {
    var digits := ToDigits(16, 10);
    assert digits == "16";
    var z := Zeros(30);
    assert FormatPadded(16, 10, 32) == z + digits;
    assert AllDigits(z, 16) by {
      forall i | 0 <= i < |z| ensures IsDigit(z[i], 16) { assert IsDigit(z[i], 2); }
    }
    assert AllDigits(digits, 16);
    ZerosValue(z, 16);
    ValueConcat(z, digits, 16);
    assert digits[..1] == "1";
    assert Value(digits, 16) == 22;
  }

  /**
   * With the intended hexadecimal trace id, `extract` after `inject` always reads back a
   * child of the injected context: every field, the trace id included, survives.
   */
  lemma IntendedInjectThenExtract(c: TraceContext, headers: map<string, string>, freshId: u64, freshTraceId: u128)
    ensures Extract(headers[TraceparentKey := RenderIntended(c)], freshId, freshTraceId) == Extracted(Child(c, freshId))
  {
    IntendedFieldsParse(c);
    FlagsAsNumber(c.flags);
    ExtractValueSucceeds(RenderIntended(c), freshId);
  }
}
