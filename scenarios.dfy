/**
 * The crate's own tests and documentation examples, stated over the model: concrete
 * `traceparent` values and what `extract`, `inject` and `set_sampled` make of them.
 */
module Scenarios {
  import opened Wrappers
  import opened Radix
  import opened Strings
  import opened TraceContexts
  import opened RoundTrip

  /** Two texts that agree at every index are the same text. */
  lemma SameText(s: string, t: string)
    requires |s| == |t| && forall i :: 0 <= i < |s| ==> s[i] == t[i]
    ensures s == t
  {
  }

  /** A header made of four `-`-free fields joined by `-` splits back into those fields. */
  lemma SplitsInto(text: string, a: string, b: string, c: string, d: string)
    requires text == a + "-" + b + "-" + c + "-" + d
    requires '-' !in a && '-' !in b && '-' !in c && '-' !in d
    ensures Split(text, '-') == [a, b, c, d]
  {
    var parts := [a, b, c, d];
    assert Join(parts, '-') == text by {
      assert Join(parts[3..], '-') == d;
      assert Join(parts[2..], '-') == c + "-" + d;
      assert Join(parts[1..], '-') == b + "-" + (c + "-" + d);
    }
    assert forall i :: 0 <= i < |parts| ==> '-' !in parts[i] by {
      forall i | 0 <= i < |parts| ensures '-' !in parts[i] {
        assert i == 0 || i == 1 || i == 2 || i == 3;
      }
    }
    SplitJoin(parts, '-');
  }

  /** A field of lower-case hex digits worth at most its type's maximum parses to its value. */
  lemma LiteralField(parts: seq<string>, k: nat, n: nat)
    requires k < |parts| && k < 4 && |parts[k]| >= 1 && LowerHex(parts[k])
    requires AllDigits(parts[k], 16) && Value(parts[k], 16) == n && n <= FieldMax[k]
    ensures FieldParses(parts, k) && FieldValue(parts, k) == n
  {
    LowerHexLiteral(parts[k], FieldMax[k]);
  }

  /** The two-digit fields of the crate's tests. */
  lemma ShortLiterals()
    ensures LowerHex("00") && AllDigits("00", 16) && Value("00", 16) == 0
    ensures LowerHex("01") && AllDigits("01", 16) && Value("01", 16) == 1
    ensures LowerHex("02") && AllDigits("02", 16) && Value("02", 16) == 2
  {
    ZeroThen('0');
    ZeroThen('1');
    ZeroThen('2');
  }

  /** A `0` followed by one hex digit is worth that digit. */
  lemma ZeroThen(c: char)
    requires IsLowerHexDigit(c)
    ensures LowerHex(['0', c]) && AllDigits(['0', c], 16) && Value(['0', c], 16) == DigitValue(c)
  {
    HexStep("", '0');
    assert "" + ['0'] == "0";
    HexStep("0", c);
    assert "0" + [c] == ['0', c];
  }

  /** 0xdeadbeef, the parent id of the crate's `default` test. */
  lemma DeadbeefValue()
    ensures LowerHex("deadbeef") && AllDigits("deadbeef", 16) && Value("deadbeef", 16) == 3735928559
  {
    DeadValue();
    BeefValue();
    ValueConcat("dead", "beef", 16);
    assert Pow(16, 4) == 0x10000;
    assert "dead" + "beef" == "deadbeef";
  }

  /** Appending a hex digit multiplies the value by 16 and adds the digit. */
  lemma HexStep(s: string, c: char)
    requires AllDigits(s, 16) && IsLowerHexDigit(c)
    ensures AllDigits(s + [c], 16)
    ensures Value(s + [c], 16) == Value(s, 16) * 16 + DigitValue(c)
  {
    var t := s + [c];
    assert t[..|t| - 1] == s;
  }

  /** The upper half of 0xdeadbeef. */
  lemma DeadValue()
    ensures LowerHex("dead") && AllDigits("dead", 16) && Value("dead", 16) == 0xdead
  {
    HexStep("", 'd');
    assert "" + ['d'] == "d";
    HexStep("d", 'e');
    assert "d" + ['e'] == "de";
    HexStep("de", 'a');
    assert "de" + ['a'] == "dea";
    HexStep("dea", 'd');
    assert "dea" + ['d'] == "dead";
  }

  /** The lower half of 0xdeadbeef. */
  lemma BeefValue()
    ensures LowerHex("beef") && AllDigits("beef", 16) && Value("beef", 16) == 0xbeef
  {
    HexStep("", 'b');
    assert "" + ['b'] == "b";
    HexStep("b", 'e');
    assert "b" + ['e'] == "be";
    HexStep("be", 'e');
    assert "be" + ['e'] == "bee";
    HexStep("bee", 'f');
    assert "bee" + ['f'] == "beef";
  }

  /** A third field `deadbeef` parses as the u64 parent id 3735928559. */
  lemma DeadbeefField(parts: seq<string>)
    requires |parts| == 4 && parts[2] == "deadbeef"
    ensures FieldParses(parts, 2) && FieldValue(parts, 2) == 3735928559
  {
    DeadbeefValue();
    LiteralField(parts, 2, 3735928559);
  }

  /** A header whose four fields parse to the given values reads as the context holding them. */
  lemma ReadsAs(text: string, parts: seq<string>, freshId: u64, version: u8, traceId: u128, parentId: u64, flags: u8)
    requires |parts| == 4 && Split(text, '-') == parts
    requires FieldParses(parts, 0) && FieldValue(parts, 0) == version
    requires FieldParses(parts, 1) && FieldValue(parts, 1) == traceId
    requires FieldParses(parts, 2) && FieldValue(parts, 2) == parentId
    requires FieldParses(parts, 3) && FieldValue(parts, 3) == flags
    ensures ExtractValue(text, freshId)
      == Extracted(TraceContext(id := freshId, version := version, traceId := traceId,
                                parentId := Some(parentId), flags := flags as bv8))
  {
    ExtractValueSucceeds(text, freshId);
  }

  /**
   * The `default` test: `00-01-deadbeef-00` gives version 0, trace id 1, parent id
   * 3735928559 and flags 0, so the context is not sampled.
   */
  lemma DefaultTraceparent(headers: map<string, string>, freshId: u64, freshTraceId: u128)
    requires TraceparentKey in headers && headers[TraceparentKey] == "00-01-deadbeef-00"
    ensures var r := Extract(headers, freshId, freshTraceId);
      && r == Extracted(TraceContext(id := freshId, version := 0, traceId := 1,
                                     parentId := Some(3735928559), flags := 0))
      && !Sampled(r.context)
  {
    var text := headers[TraceparentKey];
    SameText(text, "00" + "-" + "01" + "-" + "deadbeef" + "-" + "00");
    SplitsInto(text, "00", "01", "deadbeef", "00");
    ShortLiterals();
    var parts := ["00", "01", "deadbeef", "00"];
    assert FieldParses(parts, 0) && FieldValue(parts, 0) == 0 by { LiteralField(parts, 0, 0); }
    assert FieldParses(parts, 1) && FieldValue(parts, 1) == 1 by { LiteralField(parts, 1, 1); }
    DeadbeefField(parts);
    assert FieldParses(parts, 3) && FieldValue(parts, 3) == 0 by { LiteralField(parts, 3, 0); }
    ReadsAs(text, parts, freshId, 0, 1, 3735928559, 0);
  }

  /**
   * The header `00-01-02-ff` with the flags field `ff` replaced by `flags`: version 0,
   * trace id 1, parent id 2 and the given flags.
   */
  lemma OneTwoTraceparent(text: string, freshId: u64, flags: string, bits: bv8)
    requires (flags == "00" && bits == 0) || (flags == "01" && bits == 1)
    requires text == "00" + "-" + "01" + "-" + "02" + "-" + flags
    ensures ExtractValue(text, freshId)
      == Extracted(TraceContext(id := freshId, version := 0, traceId := 1, parentId := Some(2), flags := bits))
  {
    var value: u8 := if bits == 0 then 0 else 1;
    FlagsAsNumber(bits);
    SplitsInto(text, "00", "01", "02", flags);
    ShortLiterals();
    var parts := ["00", "01", "02", flags];
    assert FieldParses(parts, 0) && FieldValue(parts, 0) == 0 by { LiteralField(parts, 0, 0); }
    assert FieldParses(parts, 1) && FieldValue(parts, 1) == 1 by { LiteralField(parts, 1, 1); }
    assert FieldParses(parts, 2) && FieldValue(parts, 2) == 2 by { LiteralField(parts, 2, 2); }
    assert FieldParses(parts, 3) && FieldValue(parts, 3) == value by { LiteralField(parts, 3, value); }
    ReadsAs(text, parts, freshId, 0, 1, 2, value);
  }

  /** The `sampled` test: flags `01` make the extracted context sampled. */
  lemma SampledTraceparent(headers: map<string, string>, freshId: u64, freshTraceId: u128)
    requires TraceparentKey in headers && headers[TraceparentKey] == "00-01-02-01"
    ensures var r := Extract(headers, freshId, freshTraceId);
      r.Extracted? && r.context.flags == 1 && Sampled(r.context)
  {
    var text := headers[TraceparentKey];
    SameText(text, "00" + "-" + "01" + "-" + "02" + "-" + "01");
    OneTwoTraceparent(text, freshId, "01", 1);
  }

  /** The `not_sampled` test: flags `00` make the extracted context not sampled. */
  lemma NotSampledTraceparent(headers: map<string, string>, freshId: u64, freshTraceId: u128)
    requires TraceparentKey in headers && headers[TraceparentKey] == "00-01-02-00"
    ensures var r := Extract(headers, freshId, freshTraceId);
      r.Extracted? && r.context.flags == 0 && !Sampled(r.context)
  {
    var text := headers[TraceparentKey];
    SameText(text, "00" + "-" + "01" + "-" + "02" + "-" + "00");
    OneTwoTraceparent(text, freshId, "00", 0);
  }

  /** A field of `width` lower-case hex digits, for a type whose maximum is 16^width - 1. */
  lemma WideField(parts: seq<string>, k: nat, width: nat)
    requires k < |parts| && k < 4 && |parts[k]| == width && LowerHex(parts[k])
    requires (k == 1 && width == 32) || (k == 2 && width == 16)
    ensures AllDigits(parts[k], 16)
    ensures FieldParses(parts, k) && FieldValue(parts, k) == Value(parts[k], 16)
    ensures FromStrRadix(parts[k], 16, FieldMax[k]) == Ok(Value(parts[k], 16))
  {
    var s := parts[k];
    assert AllDigits(s, 16) by {
      forall i | 0 <= i < |s| ensures IsDigit(s[i], 16) { assert IsLowerHexDigit(s[i]); }
    }
    ValueBelowPow(s, 16);
    HexPowers();
    LiteralField(parts, k, Value(s, 16));
  }

  /** Such a header splits into its four fields, the hex ones holding no `-`. */
  lemma WideHeaderSplits(text: string, traceIdText: string, parentIdText: string)
    requires LowerHex(traceIdText) && LowerHex(parentIdText)
    requires text == "00" + "-" + traceIdText + "-" + parentIdText + "-" + "01"
    ensures Split(text, '-') == ["00", traceIdText, parentIdText, "01"]
  {
    assert '-' !in traceIdText by {
      forall i | 0 <= i < |traceIdText| ensures traceIdText[i] != '-' { assert IsLowerHexDigit(traceIdText[i]); }
    }
    assert '-' !in parentIdText by {
      forall i | 0 <= i < |parentIdText| ensures parentIdText[i] != '-' { assert IsLowerHexDigit(parentIdText[i]); }
    }
    SplitsInto(text, "00", traceIdText, parentIdText, "01");
  }

  /**
   * A version-00, flags-01 header with a trace id of 32 and a parent id of 16 lower-case
   * hex digits reads as the values `from_str_radix` gives for those fields, with flags 1.
   */
  lemma SampledWideHeader(text: string, traceIdText: string, parentIdText: string, freshId: u64)
    requires |traceIdText| == 32 && LowerHex(traceIdText) && |parentIdText| == 16 && LowerHex(parentIdText)
    requires text == "00" + "-" + traceIdText + "-" + parentIdText + "-" + "01"
    ensures var r := ExtractValue(text, freshId);
      && r.Extracted? && r.context.version == 0 && r.context.flags == 1
      && FromStrRadix(traceIdText, 16, MaxU128) == Ok(r.context.traceId)
      && r.context.parentId.Some? && FromStrRadix(parentIdText, 16, MaxU64) == Ok(r.context.parentId.value)
      && r.context.traceId == Value(traceIdText, 16) && r.context.parentId.value == Value(parentIdText, 16)
  {
    WideHeaderSplits(text, traceIdText, parentIdText);
    var parts := ["00", traceIdText, parentIdText, "01"];
    WideHeaderFields(parts);
    ReadsAs(text, parts, freshId, 0, FieldValue(parts, 1), FieldValue(parts, 2), 1);
  }

  /** The four fields of such a header parse, the hex ones to their values. */
  lemma WideHeaderFields(parts: seq<string>)
    requires |parts| == 4 && parts[0] == "00" && parts[3] == "01"
    requires |parts[1]| == 32 && LowerHex(parts[1]) && |parts[2]| == 16 && LowerHex(parts[2])
    ensures FieldParses(parts, 0) && FieldValue(parts, 0) == 0
    ensures FieldParses(parts, 1) && FieldValue(parts, 1) == Value(parts[1], 16)
    ensures FromStrRadix(parts[1], 16, MaxU128) == Ok(Value(parts[1], 16))
    ensures FieldParses(parts, 2) && FieldValue(parts, 2) == Value(parts[2], 16)
    ensures FromStrRadix(parts[2], 16, MaxU64) == Ok(Value(parts[2], 16))
    ensures FieldParses(parts, 3) && FieldValue(parts, 3) == 1
  {
    ShortLiterals();
    LiteralField(parts, 0, 0);
    WideField(parts, 1, 32);
    WideField(parts, 2, 16);
    LiteralField(parts, 3, 1);
  }

  /**
   * The crate's documentation example: the header
   * `00-0af7651916cd43dd8448eb211c80319c-00f067aa0ba902b7-01` reads as the trace id and
   * parent id that `from_str_radix` gives for those two fields, and is sampled.
   */
  lemma DocumentedTraceparent(headers: map<string, string>, freshId: u64, freshTraceId: u128,
                              traceIdText: string, parentIdText: string)
    requires traceIdText == "0af7651916cd43dd8448eb211c80319c" && parentIdText == "00f067aa0ba902b7"
    requires TraceparentKey in headers
    requires headers[TraceparentKey] == "00" + "-" + traceIdText + "-" + parentIdText + "-" + "01"
    ensures var r := Extract(headers, freshId, freshTraceId);
      && r.Extracted? && r.context.parentId.Some?
      && FromStrRadix(traceIdText, 16, MaxU128) == Ok(r.context.traceId)
      && FromStrRadix(parentIdText, 16, MaxU64) == Ok(r.context.parentId.value)
      && Sampled(r.context)
  {
    assert LowerHex(traceIdText) && LowerHex(parentIdText);
    SampledWideHeader(headers[TraceparentKey], traceIdText, parentIdText, freshId);
  }

  /** A header of only two fields that parse panics on indexing the third. */
  lemma TwoFieldsPanic(headers: map<string, string>, freshId: u64, freshTraceId: u128)
    requires TraceparentKey in headers && headers[TraceparentKey] == "00-01"
    ensures Extract(headers, freshId, freshTraceId) == IndexPanic(2, 2)
  {
    var text, parts := headers[TraceparentKey], ["00", "01"];
    assert text == Join(parts, '-');
    SplitJoin(parts, '-');
    assert FieldParses(parts, 0) by { LowerHexLiteral(parts[0], MaxU8); }
    assert FieldParses(parts, 1) by { LowerHexLiteral(parts[1], MaxU128); }
    ExtractValuePanics(text, freshId);
  }

  /** An empty header fails on its empty first field with the Empty error. */
  lemma EmptyTraceparentFails(headers: map<string, string>, freshId: u64, freshTraceId: u128)
    requires TraceparentKey in headers && headers[TraceparentKey] == ""
    ensures Extract(headers, freshId, freshTraceId) == Failed(ParseIntError(Empty))
  {
    var parts := Split(headers[TraceparentKey], '-');
    assert parts == [[]];
    assert FirstBadField(parts, 0);
    ExtractValueFails(headers[TraceparentKey], freshId);
  }

  /** 0x100 is one more than a u8 holds. */
  lemma HundredValue()
    ensures LowerHex("100") && AllDigits("100", 16) && Value("100", 16) == 0x100
  {
    HexStep("", '1');
    assert "" + ['1'] == "1";
    HexStep("1", '0');
    assert "1" + ['0'] == "10";
    HexStep("10", '0');
    assert "10" + ['0'] == "100";
  }

  /** A version of three hex digits does not fit a u8, and fails with PosOverflow. */
  lemma WideVersionFails(headers: map<string, string>, freshId: u64, freshTraceId: u128)
    requires TraceparentKey in headers && headers[TraceparentKey] == "100-01-02-01"
    ensures Extract(headers, freshId, freshTraceId) == Failed(ParseIntError(PosOverflow))
  {
    var text := headers[TraceparentKey];
    SameText(text, "100" + "-" + "01" + "-" + "02" + "-" + "01");
    SplitsInto(text, "100", "01", "02", "01");
    var parts := ["100", "01", "02", "01"];
    assert ParseField(parts, 0) == Err(PosOverflow) by {
      HundredValue();
      assert parts[0] == "100" && Magnitude(parts[0]) == parts[0];
      assert !FieldParses(parts, 0);
    }
  }

  /** A string of `0` characters is worth 0 in hexadecimal. */
  lemma {:induction false} AllZerosValue(z: string)
    requires forall i :: 0 <= i < |z| ==> z[i] == '0'
    ensures AllDigits(z, 16) && Value(z, 16) == 0
    decreases |z|
  {
    if z != [] {
      AllZerosValue(z[..|z| - 1]);
    }
  }

  /** Zeros followed by one nonzero decimal digit are worth that digit in hexadecimal. */
  lemma PaddedDigitValue(s: string, d: nat)
    requires 1 <= d <= 9 && |s| >= 1 && DigitValue(s[|s| - 1]) == d
    requires forall i :: 0 <= i < |s| - 1 ==> s[i] == '0'
    ensures LowerHex(s) && AllDigits(s, 16) && Value(s, 16) == d
  {
    var z := s[..|s| - 1];
    AllZerosValue(z);
    assert IsLowerHexDigit(s[|s| - 1]);
    assert LowerHex(s) by {
      forall i | 0 <= i < |s| ensures IsLowerHexDigit(s[i]) {
        if i < |s| - 1 { assert s[i] == '0'; }
      }
    }
  }

  /** The trace id field of the documentation examples is worth 1. */
  lemma PaddedOne()
    ensures var s := "00000000000000000000000000000001";
      LowerHex(s) && AllDigits(s, 16) && Value(s, 16) == 1
  {
    PaddedDigitValue("00000000000000000000000000000001", 1);
  }

  /** The parent id field of the documentation examples is worth 2. */
  lemma PaddedTwo()
    ensures var s := "0000000000000002";
      LowerHex(s) && AllDigits(s, 16) && Value(s, 16) == 2
  {
    PaddedDigitValue("0000000000000002", 2);
  }

  /**
   * The header of the `inject` and `sampled` documentation examples,
   * `00-00000000000000000000000000000001-0000000000000002-01`: trace id 1, parent id 2,
   * sampled.
   */
  lemma OneTwoSampled(headers: map<string, string>, freshId: u64, freshTraceId: u128,
                      traceIdText: string, parentIdText: string)
    requires traceIdText == "00000000000000000000000000000001" && parentIdText == "0000000000000002"
    requires TraceparentKey in headers
    requires headers[TraceparentKey] == "00" + "-" + traceIdText + "-" + parentIdText + "-" + "01"
    ensures Extract(headers, freshId, freshTraceId)
      == Extracted(TraceContext(id := freshId, version := 0, traceId := 1, parentId := Some(2), flags := 1))
  {
    PaddedOne();
    PaddedTwo();
    SampledWideHeader(headers[TraceparentKey], traceIdText, parentIdText, freshId);
  }

  /**
   * The documentation example of `inject`: the context extracted from the header above,
   * injected into an empty header map and extracted again, comes back as its child: same
   * version, trace id and flags, with the first context's id as parent.
   */
  method InjectedContextComesBackAsChild(firstId: u64, secondId: u64, freshTraceId: u128)
    returns (parent: TraceContext, child: Extraction)
    ensures parent == TraceContext(id := firstId, version := 0, traceId := 1, parentId := Some(2), flags := 1)
    ensures child == Extracted(Child(parent, secondId))
  {
    var traceIdText, parentIdText := "00000000000000000000000000000001", "0000000000000002";
    var input := map[TraceparentKey := "00" + "-" + traceIdText + "-" + parentIdText + "-" + "01"];
    OneTwoSampled(input, firstId, freshTraceId, traceIdText, parentIdText);
    parent := Extract(input, firstId, freshTraceId).context;
    var output := new HeaderMap();
    Inject(parent, output);
    InjectThenExtractIsChild(parent, map[], secondId, freshTraceId);
    child := Extract(output.entries, secondId, freshTraceId);
  }

  /**
   * The documentation example of `set_sampled`: a new root is sampled, and after
   * `set_sampled(false)` it is not, with every other field unchanged.
   */
  method UnsampledRoot(freshId: u64, freshTraceId: u128) returns (ctx: TraceContext)
    ensures !Sampled(ctx) && ctx == NewRoot(freshId, freshTraceId).(flags := 0)
  {
    ctx := NewRoot(freshId, freshTraceId);
    assert Sampled(ctx);
    ctx := SetSampled(ctx, false);
  }
}
