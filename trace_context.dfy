/**
 * The `TraceContext` value of the trace-context crate: one hop's position in a
 * distributed trace, read from and written to the `traceparent` header of the W3C Trace
 * Context Recommendation (section 3.2, "Traceparent Header").
 *
 * Every random draw of the crate (`rng.gen()`) is an explicit parameter here: `freshId`
 * for a new hop id and `freshTraceId` for the trace id of a new root.
 */
module TraceContexts {
  import opened Wrappers
  import opened Radix
  import opened Strings

  const MaxU8: nat := 0xFF
  const MaxU64: nat := 0xFFFF_FFFF_FFFF_FFFF
  const MaxU128: nat := 0xFFFF_FFFF_FFFF_FFFF_FFFF_FFFF_FFFF_FFFF

  type u8 = x: nat | x <= MaxU8
  type u64 = x: nat | x <= MaxU64
  type u128 = x: nat | x <= MaxU128

  datatype TraceContext = TraceContext(
    id: u64,
    version: u8,
    traceId: u128,
    parentId: Option<u64>,
    flags: bv8)

  /** The carrier key read by `extract` and written by `inject`. */
  const TraceparentKey: string := "traceparent"

  /** Rust's `std::num::ParseIntError`, the error type of `extract`. */
  datatype ParseIntError = ParseIntError(kind: IntErrorKind)

  /**
   * What a call of `extract` comes to: a context, a parse error, or a panic from indexing
   * segment `index` of a split that has only `len` segments.
   */
  datatype Extraction =
    | Extracted(context: TraceContext)
    | Failed(error: ParseIntError)
    | IndexPanic(index: nat, len: nat)

  /** Version, trace id, flags and parent id are those of the context `c` was derived from. */
  predicate IsChildOf(c: TraceContext, parent: TraceContext) {
    && c.version == parent.version
    && c.traceId == parent.traceId
    && c.flags == parent.flags
    && c.parentId == Some(parent.id)
  }

  // ---------------------------------------------------------------------------------
  // Construction
  // ---------------------------------------------------------------------------------

  /** `new_root`: a fresh trace, version 0, no parent, sampled by default. */
  function NewRoot(freshId: u64, freshTraceId: u128): (root: TraceContext)
    ensures root.parentId == None && root.version == 0 && root.flags == 1 && Sampled(root)
    ensures root.id == freshId && root.traceId == freshTraceId
  {
    TraceContext(id := freshId, version := 0, traceId := freshTraceId, parentId := None, flags := 1 as bv8)
  }

  /** `child`: a new hop in the same trace whose parent is `ctx`; only the id is new. */
  function Child(ctx: TraceContext, freshId: u64): (c: TraceContext)
    ensures IsChildOf(c, ctx) && c.id == freshId
  {
    TraceContext(id := freshId, version := ctx.version, traceId := ctx.traceId,
                 parentId := Some(ctx.id), flags := ctx.flags)
  }

  /** The context after successive `child` calls, drawing the fresh ids in order. */
  function Descend(ctx: TraceContext, freshIds: seq<u64>): TraceContext
    decreases |freshIds|
  {
    if freshIds == [] then ctx
    else Child(Descend(ctx, freshIds[..|freshIds| - 1]), freshIds[|freshIds| - 1])
  }

  /**
   * However many hops a trace passes through, every descendant keeps the version, trace
   * id and flags of its ancestor; its id is the last fresh id, and its parent is the hop
   * before it.
   */
  lemma {:induction false} DescendantSharesTrace(ctx: TraceContext, freshIds: seq<u64>)
    ensures var d := Descend(ctx, freshIds);
      && d.version == ctx.version && d.traceId == ctx.traceId && d.flags == ctx.flags
      && Sampled(d) == Sampled(ctx)
      && (|freshIds| >= 1 ==> d.id == freshIds[|freshIds| - 1])
      && (|freshIds| == 1 ==> d.parentId == Some(ctx.id))
      && (|freshIds| >= 2 ==> d.parentId == Some(freshIds[|freshIds| - 2]))
    decreases |freshIds|
  {
    if freshIds != [] {
      var front := freshIds[..|freshIds| - 1];
      DescendantSharesTrace(ctx, front);
      if |freshIds| >= 2 {
        assert front[|front| - 1] == freshIds[|freshIds| - 2];
      }
    }
  }

  // ---------------------------------------------------------------------------------
  // The sampled bit
  // ---------------------------------------------------------------------------------

  /** `sampled`: bit 0 of the flags. */
  predicate Sampled(ctx: TraceContext) {
    ctx.flags & 1 == 1
  }

  /** The flags with bit 0 set to `sampled` and bits 1-7 kept. */
  function WithSampled(flags: bv8, sampled: bool): (r: bv8)
    ensures (r & 1 == 1) == sampled && r & 0xFE == flags & 0xFE
  {
    (flags & 0xFE) | (if sampled then 1 else 0)
  }

  /** Setting the sampled bit twice is setting it once, to the second value. */
  lemma SetSampledTwice(flags: bv8, first: bool, second: bool)
    ensures WithSampled(WithSampled(flags, first), second) == WithSampled(flags, second)
  {
  }

  /** Setting the sampled bit to the value it already has changes nothing. */
  lemma SetSampledToCurrent(ctx: TraceContext)
    ensures WithSampled(ctx.flags, Sampled(ctx)) == ctx.flags
  {
  }

  /**
   * `set_sampled`: the xor trick `flags ^= (x ^ flags) & 1` of the crate, which sets bit 0
   * to `x` and leaves the other bits as they were. The crate updates `self` in place; here
   * the updated context is returned.
   */
  method SetSampled(ctx: TraceContext, sampled: bool) returns (updated: TraceContext)
    ensures updated == ctx.(flags := WithSampled(ctx.flags, sampled))
    ensures Sampled(updated) == sampled && updated.flags & 0xFE == ctx.flags & 0xFE
  {
    var x: bv8 := if sampled then 1 else 0;
    var flags := ctx.flags;
    flags := flags ^ ((x ^ flags) & (1 << 0));
    updated := ctx.(flags := flags);
  }

  // ---------------------------------------------------------------------------------
  // Extraction
  // ---------------------------------------------------------------------------------

  /** The largest value of each `-`-separated field: version, trace id, parent id, flags. */
  const FieldMax: seq<nat> := [MaxU8, MaxU128, MaxU64, MaxU8]

  /** Field `k` of the split header is one `from_str_radix(_, 16)` accepts for its type. */
  predicate FieldParses(parts: seq<string>, k: nat)
    requires k < |parts| && k < 4
  {
    IsUnsignedLiteral(parts[k], 16, FieldMax[k])
  }

  /** The number field `k` stands for, when it parses. */
  function FieldValue(parts: seq<string>, k: nat): (v: nat)
    requires k < |parts| && k < 4 && FieldParses(parts, k)
    ensures v <= FieldMax[k]
  {
    Value(Magnitude(parts[k]), 16)
  }

  /** `uN::from_str_radix(parts[k], 16)` for the type of field `k`. */
  function ParseField(parts: seq<string>, k: nat): (r: Result<nat, IntErrorKind>)
    requires k < |parts| && k < 4
    ensures r.Ok? <==> FieldParses(parts, k)
    ensures r.Ok? ==> r.value == FieldValue(parts, k)
    ensures r == Err(Empty) <==> parts[k] == []
  {
    FromStrRadix(parts[k], 16, FieldMax[k])
  }

  /**
   * `extract` once the `traceparent` value is in hand: split on `-`, then read segments
   * 0 to 3 in that order as hexadecimal u8, u128, u64 and u8. The first field that fails
   * to parse ends the call with its error; a segment that is missing panics when it is
   * indexed, which happens only after the fields before it have parsed. Segments after
   * the fourth are not looked at. The hop id is fresh, and the parsed third field becomes
   * the parent id.
   */
  function ExtractValue(traceparent: string, freshId: u64): (r: Extraction)
    ensures r.Extracted? ==> r.context.id == freshId && r.context.parentId.Some?
  {
    var parts := Split(traceparent, '-');
    match ParseField(parts, 0)
    case Err(e) => Failed(ParseIntError(e))
    case Ok(version) =>
      if |parts| <= 1 then IndexPanic(1, |parts|) else
      match ParseField(parts, 1)
      case Err(e) => Failed(ParseIntError(e))
      case Ok(traceId) =>
        if |parts| <= 2 then IndexPanic(2, |parts|) else
        match ParseField(parts, 2)
        case Err(e) => Failed(ParseIntError(e))
        case Ok(parentId) =>
          if |parts| <= 3 then IndexPanic(3, |parts|) else
          match ParseField(parts, 3)
          case Err(e) => Failed(ParseIntError(e))
          case Ok(flags) =>
            Extracted(TraceContext(id := freshId, version := version, traceId := traceId,
                                   parentId := Some(parentId), flags := flags as bv8))
  }

  /**
   * `extract` yields a context exactly when the header has at least four segments and
   * each of the first four parses for its type; the context holds the four values, the
   * third as parent id, and the fresh id.
   */
  lemma ExtractValueSucceeds(traceparent: string, freshId: u64)
    ensures var parts, r := Split(traceparent, '-'), ExtractValue(traceparent, freshId);
      && (r.Extracted? <==> |parts| >= 4 && forall k :: 0 <= k < 4 ==> FieldParses(parts, k))
      && (r.Extracted? ==> r.context == TraceContext(
            id := freshId,
            version := FieldValue(parts, 0),
            traceId := FieldValue(parts, 1),
            parentId := Some(FieldValue(parts, 2)),
            flags := FieldValue(parts, 3) as bv8))
  {
    var parts := Split(traceparent, '-');
    if |parts| >= 4 && forall k :: 0 <= k < 4 ==> FieldParses(parts, k) {
      assert FieldParses(parts, 0) && FieldParses(parts, 1);
      assert FieldParses(parts, 2) && FieldParses(parts, 3);
    }
  }

  /**
   * `extract` panics exactly when the header has fewer than four segments and all that
   * are there parse; the panic is on indexing the first missing segment.
   */
  lemma ExtractValuePanics(traceparent: string, freshId: u64)
    ensures var parts, r := Split(traceparent, '-'), ExtractValue(traceparent, freshId);
      && (r.IndexPanic? <==> |parts| < 4 && forall k :: 0 <= k < |parts| ==> FieldParses(parts, k))
      && (r.IndexPanic? ==> r.index == r.len == |parts|)
  {
    var parts := Split(traceparent, '-');
    if |parts| < 4 && forall k :: 0 <= k < |parts| ==> FieldParses(parts, k) {
      assert FieldParses(parts, 0);
      assert |parts| >= 2 ==> FieldParses(parts, 1);
      assert |parts| >= 3 ==> FieldParses(parts, 2);
    }
  }

  /**
   * `extract` fails with a parse error exactly when one of the first four segments does
   * not parse (is empty, holds a character that is no hex digit, or is too large for its
   * type) and every segment before it does; the error is Empty exactly when that segment
   * is empty.
   */
  lemma ExtractValueFails(traceparent: string, freshId: u64)
    ensures ExtractValue(traceparent, freshId).Failed?
      ==> exists k: nat :: FirstBadField(Split(traceparent, '-'), k)
    ensures forall k: nat :: FirstBadField(Split(traceparent, '-'), k) ==>
      var r := ExtractValue(traceparent, freshId);
      r.Failed? && (r.error.kind == Empty <==> Split(traceparent, '-')[k] == [])
  {
    var parts := Split(traceparent, '-');
    var r := ExtractValue(traceparent, freshId);
    forall k: nat | FirstBadField(parts, k)
      ensures r.Failed? && (r.error.kind == Empty <==> parts[k] == [])
    {
      assert k >= 1 ==> FieldParses(parts, 0);
      assert k >= 2 ==> FieldParses(parts, 1);
      assert k >= 3 ==> FieldParses(parts, 2);
      var e := ParseField(parts, k);
      assert r.error.kind == e.error;
    }
    if r.Failed? {
      var k: nat := if ParseField(parts, 0).Err? then 0
        else if ParseField(parts, 1).Err? then 1
        else if ParseField(parts, 2).Err? then 2
        else 3;
      assert FirstBadField(parts, k);

    }
  }

  /** Segment `k` is one of the first four, does not parse, and all before it do. */
  predicate FirstBadField(parts: seq<string>, k: nat) {
    && k < |parts| && k < 4 && !FieldParses(parts, k)
    && forall j :: 0 <= j < k ==> FieldParses(parts, j)
  }

  /**
   * `extract`: with no `traceparent` entry, a new root; otherwise the value of that entry,
   * read as ExtractValue does.
   */
  function Extract(headers: map<string, string>, freshId: u64, freshTraceId: u128): (r: Extraction)
    ensures TraceparentKey !in headers ==> r.Extracted?
    ensures r.Extracted? ==> r.context.id == freshId
    ensures r.Extracted? ==> (r.context.parentId.Some? <==> TraceparentKey in headers)
  {
    if TraceparentKey in headers then ExtractValue(headers[TraceparentKey], freshId)
    else Extracted(NewRoot(freshId, freshTraceId))
  }

  /** With no `traceparent` entry, `extract` starts a trace: version 0, no parent, sampled. */
  lemma NoHeaderStartsRoot(headers: map<string, string>, freshId: u64, freshTraceId: u128)
    requires TraceparentKey !in headers
    ensures var r := Extract(headers, freshId, freshTraceId);
      && r.Extracted?
      && r.context.version == 0 && r.context.parentId == None
      && r.context.flags == 1 && Sampled(r.context)
      && r.context.id == freshId && r.context.traceId == freshTraceId
  {
  }

  // ---------------------------------------------------------------------------------
  // Rendering and injection
  // ---------------------------------------------------------------------------------

  /**
   * The four fields of a `traceparent` value in order: version, trace id, id and flags,
   * each in lower-case hexadecimal zero-padded to 2, 32, 16 and 2 characters, except that
   * the trace id is written in `traceIdRadix`.
   */
  function Fields(ctx: TraceContext, traceIdRadix: nat): seq<string>
    requires traceIdRadix == 10 || traceIdRadix == 16
  {
    [FormatPadded(ctx.version, 16, 2), FormatPadded(ctx.traceId, traceIdRadix, 32),
     FormatPadded(ctx.id, 16, 16), FormatPadded(ctx.flags as nat, 16, 2)]
  }

  /**
   * `Display::fmt`, the format `{:02x}-{:032}-{:016x}-{:02x}` over version, trace id, id
   * and flags. As written, the trace id spec has no `x`, so the trace id is written in
   * DECIMAL, zero-padded to at least 32 characters.
   */
  function Render(ctx: TraceContext): (text: string)
    ensures Split(text, '-') == Fields(ctx, 10)
  {
    FieldsSplit(ctx, 10);
    Join(Fields(ctx, 10), '-')
  }

  /**
   * The rendering the crate evidently intends, `{:02x}-{:032x}-{:016x}-{:02x}`: the trace
   * id in hexadecimal like every other field, as `extract` reads it back.
   */
  function RenderIntended(ctx: TraceContext): (text: string)
    ensures Split(text, '-') == Fields(ctx, 16)
  {
    FieldsSplit(ctx, 16);
    Join(Fields(ctx, 16), '-')
  }

  /** Every character of `s` is a lower-case hexadecimal digit. */
  predicate LowerHex(s: string) {
    forall i :: 0 <= i < |s| ==> IsLowerHexDigit(s[i])
  }

  /** Every field of both renderings is made of lower-case hex digits. */
  lemma FieldsLowerHex(ctx: TraceContext, traceIdRadix: nat)
    requires traceIdRadix == 10 || traceIdRadix == 16
    ensures var f := Fields(ctx, traceIdRadix);
      LowerHex(f[0]) && LowerHex(f[1]) && LowerHex(f[2]) && LowerHex(f[3])
  {
    var f := Fields(ctx, traceIdRadix);
    assert LowerHex(f[0]) by { PaddedLowerHex(ctx.version, 16, 2); }
    assert LowerHex(f[1]) by { PaddedLowerHex(ctx.traceId, traceIdRadix, 32); }
    assert LowerHex(f[2]) by { PaddedLowerHex(ctx.id, 16, 16); }
    assert LowerHex(f[3]) by { PaddedLowerHex(ctx.flags as nat, 16, 2); }
  }

  /** A padded rendering is made of lower-case hex digits. */
  lemma PaddedLowerHex(n: nat, radix: nat, width: nat)
    requires 2 <= radix <= 16
    ensures LowerHex(FormatPadded(n, radix, width))
  {
  }

  /** Both renderings split back into their four fields. */
  lemma FieldsSplit(ctx: TraceContext, traceIdRadix: nat)
    requires traceIdRadix == 10 || traceIdRadix == 16
    ensures Split(Join(Fields(ctx, traceIdRadix), '-'), '-') == Fields(ctx, traceIdRadix)
  {
    var f := Fields(ctx, traceIdRadix);
    FieldsLowerHex(ctx, traceIdRadix);
    NoDash(f[0]);
    NoDash(f[1]);
    NoDash(f[2]);
    NoDash(f[3]);
    assert forall k :: 0 <= k < |f| ==> '-' !in f[k] by {
      forall k | 0 <= k < |f| ensures '-' !in f[k] {
        assert k == 0 || k == 1 || k == 2 || k == 3;
      }
    }
    SplitJoin(f, '-');
  }

  /** Version and flags take two characters and the id sixteen, in both renderings. */
  lemma FieldWidths(ctx: TraceContext, traceIdRadix: nat)
    requires traceIdRadix == 10 || traceIdRadix == 16
    ensures var f := Fields(ctx, traceIdRadix); |f[0]| == 2 && |f[2]| == 16 && |f[3]| == 2
  {
    var f := Fields(ctx, traceIdRadix);
    HexWidths(f[0], f[2], f[3], ctx);
  }

  /** The version, id and flags of a context take 2, 16 and 2 hex digits. */
  lemma HexWidths(v: string, i: string, g: string, ctx: TraceContext)
    requires v == FormatPadded(ctx.version, 16, 2) && i == FormatPadded(ctx.id, 16, 16)
    requires g == FormatPadded(ctx.flags as nat, 16, 2)
    ensures |v| == 2 && |i| == 16 && |g| == 2
  {
    HexWidth(ctx.version, 2);
    HexWidth(ctx.id, 16);
    HexWidth(ctx.flags as nat, 2);
  }

  /**
   * The as-written rendering's trace id field: decimal digits, at least 32 of them, and
   * exactly 32 when the trace id is below 10^32.
   */
  lemma DecimalTraceIdWidth(ctx: TraceContext)
    ensures var t := Fields(ctx, 10)[1];
      AllDigits(t, 10) && Value(t, 10) == ctx.traceId
      && |t| >= 32 && (|t| == 32 <==> ctx.traceId < Pow(10, 32))
  {
    DigitCount(ctx.traceId, 10, 32);
    FormatPaddedValue(ctx.traceId, 10, 32);
  }

  /** A value below 16^width is rendered in exactly `width` hex digits. */
  lemma HexWidth(n: nat, width: nat)
    requires width == 2 || width == 16 || width == 32
    requires n < if width == 2 then MaxU8 + 1 else if width == 16 then MaxU64 + 1 else MaxU128 + 1
    ensures |FormatPadded(n, 16, width)| == width
  {
    HexPowers();
    DigitCount(n, 16, width);
  }

  /** The powers behind the hexadecimal field widths: 16^2, 16^16 and 16^32 bound u8, u64 and u128. */
  lemma HexPowers()
    ensures Pow(16, 2) == MaxU8 + 1
    ensures Pow(16, 16) == MaxU64 + 1
    ensures Pow(16, 32) == MaxU128 + 1
  {
    SmallHexPowers();
    PowAdd(16, 16, 16);
  }

  /** 16^2 and 16^16 bound u8 and u64. */
  lemma SmallHexPowers()
    ensures Pow(16, 2) == MaxU8 + 1
    ensures Pow(16, 16) == MaxU64 + 1
  {
    assert Pow(16, 4) == 0x1_0000;
    PowAdd(16, 4, 4);
    PowAdd(16, 8, 8);
  }

  lemma NoDash(s: string)
    requires LowerHex(s)
    ensures '-' !in s
  {
  }

  /** The carrier `inject` writes into: the part of `http::HeaderMap` the crate uses. */
  class HeaderMap {
    var entries: map<string, string>

    constructor ()
      ensures entries == map[]
    {
      entries := map[];
    }
  }

  /** `inject`: writes the rendered context under `traceparent`, replacing any earlier value. */
  method Inject(ctx: TraceContext, headers: HeaderMap)
    modifies headers
    ensures headers.entries == old(headers.entries)[TraceparentKey := Render(ctx)]
    ensures TraceparentKey in headers.entries && headers.entries[TraceparentKey] == Render(ctx)
    ensures forall k :: k != TraceparentKey ==>
      (k in headers.entries <==> k in old(headers.entries))
      && (k in headers.entries ==> headers.entries[k] == old(headers.entries)[k])
  {
    headers.entries := headers.entries[TraceparentKey := Render(ctx)];
  }
}
