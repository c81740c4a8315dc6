/** The decode-error model that every generated crate shares: the closed set
    of failure reasons, the error that pairs a reason with a dotted location
    path, the constructors that build and annotate it, the two conversions
    into it, and the text it renders to (as a pure specification; the
    formatter-driven rendering is in module ErrorFormat). */
module DeserializeErrors {
  import opened Decimal
  import Locations

  /** `cbor_event::Error`, a foreign value. */
  type CborError
  /** `cbor_event::Type`, a foreign value. */
  type CborType
  /** `Box<dyn std::error::Error>`, a foreign value. */
  type BoxedError
  /** `f64`; its decimal formatting is not modelled. */
  type F64

  /** How the foreign values print: `Display` of `f64`, of `cbor_event::Error`
      and of the boxed error, and `Debug` of `cbor_event::Type`. These are
      library code, so every lemma below holds for any choice of them. */
  datatype Foreign = Foreign(
    showFloat: F64 -> string,
    showCbor: CborError -> string,
    debugType: CborType -> string,
    showBoxed: BoxedError -> string)

  datatype Option<T> = None | Some(value: T)

  /** A map or field key, kept for diagnostics only. */
  datatype Key =
    | Str(text: string)
    | Uint(n: U64)
    | Float(x: F64)

  /** Why decoding failed. `NoVariantMatchedWithCauses` holds the failure of
      every alternative that was tried, which makes this type and
      `DeserializeError` mutually recursive. */
  datatype DeserializeFailure =
    | BreakInDefiniteLen
    | CBOR(err: CborError)
    | DefiniteLenMismatch(found: U64, expected: Option<U64>)
    | DuplicateKey(key: Key)
    | EndingBreakMissing
    | ExpectedNull
    | FixedValueMismatch(foundKey: Key, expectedKey: Key)
    | InvalidStructure(cause: BoxedError)
    | MandatoryFieldMissing(key: Key)
    | NoVariantMatched
    | NoVariantMatchedWithCauses(causes: seq<DeserializeError>)
    | RangeCheck(found: U64, min: Option<I64>, max: Option<I64>)
    | TagMismatch(foundTag: U64, expectedTag: U64)
    | UnknownKey(key: Key)
    | UnexpectedKeyType(ty: CborType)

  /** A failure together with the dotted path of where it happened, if known. */
  datatype DeserializeError = DeserializeError(location: Option<string>, failure: DeserializeFailure)

  // ---------------------------------------------------------------------------
  // Construction and annotation
  // ---------------------------------------------------------------------------

  /** The segments of an error's location, outermost first; none when it has no location. */
  function Path(e: DeserializeError): seq<string> {
    match e.location
    case None => []
    case Some(loc) => Locations.Split(loc)
  }

  /** `DeserializeError::new`: a failure at a known location. */
  function New(location: string, failure: DeserializeFailure): (e: DeserializeError)
    ensures e.location == Some(location)
    ensures e.failure == failure
  {
    DeserializeError(Some(location), failure)
  }

  /** `DeserializeError::annotate`: puts `location` in front of the path the
      error already has, or makes it the whole path when there is none. The
      failure never changes. */
  function Annotate(e: DeserializeError, location: string): (r: DeserializeError)
    ensures r.failure == e.failure
    ensures r.location.Some?
    ensures e.location.Some? ==> r.location.value == location + "." + e.location.value
    ensures e.location.None? ==> r.location.value == location
    ensures Path(r) == Locations.Split(location) + Path(e)
  {
    match e.location
    case Some(loc) =>
      Locations.SplitDot(location, loc);
      New(location + "." + loc, e.failure)
    case None =>
      New(location, e.failure)
  }

  /** `From<DeserializeFailure>`: a failure with no location yet. */
  function FromFailure(failure: DeserializeFailure): (e: DeserializeError)
    ensures e.location.None?
    ensures e.failure == failure
    ensures Path(e) == []
  {
    DeserializeError(None, failure)
  }

  /** `From<cbor_event::Error>`: the library error, wrapped unchanged, with no location yet. */
  function FromCbor(err: CborError): (e: DeserializeError)
    ensures e.location.None?
    ensures e.failure.CBOR? && e.failure.err == err
  {
    DeserializeError(None, CBOR(err))
  }

  /** Annotating an error that has no location is the same as building it with `new`. */
  lemma AnnotateFromFailure(failure: DeserializeFailure, location: string)
    ensures Annotate(FromFailure(failure), location) == New(location, failure)
  {
  }

  /** Two annotations, `a` and then `b`, give the path `b.a`, or `b.a.old`
      when the error already had the path `old`. */
  lemma AnnotateTwice(e: DeserializeError, a: string, b: string)
    ensures Annotate(Annotate(e, a), b).failure == e.failure
    ensures e.location.None? ==> Annotate(Annotate(e, a), b).location == Some(b + "." + a)
    ensures e.location.Some? ==>
      Annotate(Annotate(e, a), b).location == Some(b + "." + a + "." + e.location.value)
  {
    if e.location.Some? {
      var old_ := e.location.value;
      assert b + "." + (a + "." + old_) == b + "." + a + "." + old_;
    }
  }

  /** Annotating with each segment of `segs` in turn, as the enclosing decode
      steps do while the error propagates outward from the innermost one. */
  function AnnotateAll(e: DeserializeError, segs: seq<string>): DeserializeError
    decreases |segs|
  {
    if segs == [] then e else AnnotateAll(Annotate(e, segs[0]), segs[1..])
  }

  function Reverse<T>(s: seq<T>): (r: seq<T>)
    ensures |r| == |s|
    decreases |s|
  {
    if s == [] then [] else Reverse(s[1..]) + [s[0]]
  }

  /** Annotations compose: after annotating with segments that hold no dot,
      the path is those segments, the last one outermost, in front of the
      path the error had. No segment is ever dropped and the failure is kept. */
  lemma {:induction false} AnnotateAllPath(e: DeserializeError, segs: seq<string>)
    requires forall i :: 0 <= i < |segs| ==> Locations.NoDot(segs[i])
    ensures AnnotateAll(e, segs).failure == e.failure
    ensures Path(AnnotateAll(e, segs)) == Reverse(segs) + Path(e)
    ensures segs != [] ==> AnnotateAll(e, segs).location.Some?
    decreases |segs|
  {
    if segs != [] {
      var once := Annotate(e, segs[0]);
      Locations.SplitSegment(segs[0]);
      assert Path(once) == [segs[0]] + Path(e);
      AnnotateAllPath(once, segs[1..]);
      assert Reverse(segs) == Reverse(segs[1..]) + [segs[0]];
      if segs[1..] == [] {
        assert AnnotateAll(once, segs[1..]) == once;
      }
    }
  }

  // ---------------------------------------------------------------------------
  // Rendering (`fmt_indent` and `Display`), as a specification
  // ---------------------------------------------------------------------------

  /** `n` tab characters. */
  function Tabs(n: nat): (s: string)
    ensures |s| == n
  {
    if n == 0 then "" else Tabs(n - 1) + "\t"
  }

  /** The number of tab characters a string starts with. */
  function LeadingTabs(s: string): nat
    decreases |s|
  {
    if s != [] && s[0] == '\t' then 1 + LeadingTabs(s[1..]) else 0
  }

  const LocatedPrefix: string := "Deserialization failed in "
  const UnlocatedHeader: string := "Deserialization: "

  /** What follows the indentation: where the failure happened, if known. */
  function Header(location: Option<string>): string {
    match location
    case Some(loc) => LocatedPrefix + loc + " because: "
    case None => UnlocatedHeader
  }

  /** `Display for Key`. */
  function KeyText(k: Key, show: Foreign): string {
    match k
    case Str(s) => "\"" + s + "\""
    case Uint(n) => NatToString(n)
    case Float(x) => show.showFloat(x)
  }

  /** The message of `DefiniteLenMismatch`. */
  function LenMismatchText(found: U64, expected: Option<U64>): string {
    "Definite length mismatch: found " + NatToString(found)
      + (match expected case Some(n) => ", expected: " + NatToString(n) case None => "")
  }

  const NoRangeText: string := "invalid range (no min nor max specified)"
  const InRangeMarker: string := " not in range "
  const AtLeastMarker: string := " not at least "
  const AtMostMarker: string := " not at most "

  /** The message of `RangeCheck`, one form per combination of bounds present. */
  function RangeCheckText(found: U64, min: Option<I64>, max: Option<I64>): string {
    match (min, max)
    case (Some(lo), Some(hi)) => NatToString(found) + (InRangeMarker + (IntToString(lo) + " - " + IntToString(hi)))
    case (Some(lo), None) => NatToString(found) + (AtLeastMarker + IntToString(lo))
    case (None, Some(hi)) => NatToString(found) + (AtMostMarker + IntToString(hi))
    case (None, None) => NoRangeText
  }

  const CausesHeader: string := "No variant matched. Failures:\n"

  /** `fmt_indent(self, f, indent)`: the text written for one error. */
  function Render(e: DeserializeError, indent: nat, show: Foreign): string
    decreases e, 0
  {
    Tabs(indent) + Header(e.location) + Message(e.failure, indent, show)
  }

  /** The text written for the failure itself, after the header. Only
      `NoVariantMatchedWithCauses` recurses, into its causes one level deeper. */
  function Message(f: DeserializeFailure, indent: nat, show: Foreign): string
    decreases f
  {
    if f.NoVariantMatchedWithCauses? then CausesHeader + RenderCauses(f.causes, indent + 1, show)
    else LeafMessage(f, show)
  }

  /** The message of every failure that holds no nested errors. */
  function LeafMessage(f: DeserializeFailure, show: Foreign): string
    requires !f.NoVariantMatchedWithCauses?
  {
    match f
    case BreakInDefiniteLen => "Encountered CBOR Break while reading definite length sequence"
    case CBOR(err) => show.showCbor(err)
    case DefiniteLenMismatch(found, expected) => LenMismatchText(found, expected)
    case DuplicateKey(key) => "Duplicate key: " + KeyText(key, show)
    case EndingBreakMissing => "Missing ending CBOR Break"
    case ExpectedNull => "Expected null, found other type"
    case FixedValueMismatch(found, expected) =>
      "Expected fixed value " + KeyText(expected, show) + " found " + KeyText(found, show)
    case InvalidStructure(cause) => "Invalid internal structure: " + show.showBoxed(cause)
    case MandatoryFieldMissing(key) => "Mandatory field " + KeyText(key, show) + " not found"
    case NoVariantMatched => "No variant matched"
    case RangeCheck(found, min, max) => RangeCheckText(found, min, max)
    case TagMismatch(found, expected) =>
      "Expected tag " + NatToString(expected) + ", found " + NatToString(found)
    case UnknownKey(key) => "Found unexpected key " + KeyText(key, show)
    case UnexpectedKeyType(ty) => "Found unexpected key of CBOR type " + show.debugType(ty)
  }

  /** Each cause, in list order, rendered at `indent` and followed by a newline. */
  function RenderCauses(errs: seq<DeserializeError>, indent: nat, show: Foreign): string
    decreases errs
  {
    if errs == [] then "" else CauseLine(errs[0], indent, show) + RenderCauses(errs[1..], indent, show)
  }

  /** One pass of the `for e in errs` loop: the cause, then a newline. */
  function CauseLine(e: DeserializeError, indent: nat, show: Foreign): string
    decreases e, 1
  {
    Render(e, indent, show) + "\n"
  }

  /** `Display for DeserializeError`: the rendering at indent 0. */
  function Display(e: DeserializeError, show: Foreign): (s: string)
    ensures LeadingTabs(s) == 0
    ensures Header(e.location) <= s
  {
    RenderIndent(e, 0, show);
    Render(e, 0, show)
  }

  // ---------------------------------------------------------------------------
  // Properties of the rendering
  // ---------------------------------------------------------------------------

  lemma {:induction false} LeadingTabsOf(n: nat, s: string)
    requires s == [] || s[0] != '\t'
    ensures LeadingTabs(Tabs(n) + s) == n
    decreases n
  {
    if n > 0 {
      var t := Tabs(n) + s;
      assert Tabs(n) == "\t" + Tabs(n - 1) by {
        assert Tabs(n) == Tabs(n - 1) + "\t";
        TabsCommute(n - 1);
      }
      assert t == "\t" + (Tabs(n - 1) + s);
      assert t[0] == '\t';
      assert t[1..] == Tabs(n - 1) + s;
      LeadingTabsOf(n - 1, s);
    }
  }

  lemma {:induction false} TabsCommute(n: nat)
    ensures Tabs(n) + "\t" == "\t" + Tabs(n)
    decreases n
  {
    if n > 0 {
      TabsCommute(n - 1);
      calc {
        Tabs(n) + "\t";
        (Tabs(n - 1) + "\t") + "\t";
        ("\t" + Tabs(n - 1)) + "\t";
        "\t" + (Tabs(n - 1) + "\t");
      }
    }
  }

  /** A rendered error starts with exactly `indent` tabs, followed by
      "Deserialization failed in <loc> because: " when the location is
      known and by "Deserialization: " when it is not. */
  lemma RenderIndent(e: DeserializeError, indent: nat, show: Foreign)
    ensures LeadingTabs(Render(e, indent, show)) == indent
    ensures Tabs(indent) + Header(e.location) <= Render(e, indent, show)
    ensures Render(e, indent, show)[..indent] == Tabs(indent)
  {
    var rest := Header(e.location) + Message(e.failure, indent, show);
    assert rest[0] == 'D';
    assert Render(e, indent, show) == Tabs(indent) + rest;
    LeadingTabsOf(indent, rest);
  }

  lemma HeaderForms(location: Option<string>, msg: string)
    ensures location.Some? <==> LocatedPrefix <= Header(location) + msg
    ensures location.None? <==> UnlocatedHeader <= Header(location) + msg
  {
    var text := Header(location) + msg;
    if location.Some? {
      assert text[..|LocatedPrefix|] == LocatedPrefix;
      assert text[15] == ' ' && UnlocatedHeader[15] == ':';
    } else {
      assert text[..|UnlocatedHeader|] == UnlocatedHeader;
      assert text[15] == ':' && LocatedPrefix[15] == ' ';
    }
  }

  /** The two header forms tell apart whether the error had a location. */
  lemma HeaderShowsLocation(e: DeserializeError, indent: nat, show: Foreign)
    ensures e.location.Some? <==> LocatedPrefix <= Render(e, indent, show)[indent..]
    ensures e.location.None? <==> UnlocatedHeader <= Render(e, indent, show)[indent..]
  {
    var msg := Message(e.failure, indent, show);
    var text := Render(e, indent, show);
    assert text == Tabs(indent) + (Header(e.location) + msg);
    assert text[indent..] == Header(e.location) + msg;
    HeaderForms(e.location, msg);
  }

  /** Proof step: regrouping a concatenation of three strings. */
  lemma ConcatAssoc(a: string, b: string, c: string)
    ensures a + b + c == a + (b + c)
  {
  }

  /** The causes of a longer list render as those of its parts, in order. */
  lemma {:induction false} RenderCausesAppend(a: seq<DeserializeError>, b: seq<DeserializeError>, indent: nat, show: Foreign)
    ensures RenderCauses(a + b, indent, show) == RenderCauses(a, indent, show) + RenderCauses(b, indent, show)
    decreases |a|
  {
    var ab := a + b;
    if a == [] {
      assert ab == b;
    } else {
      assert ab[0] == a[0] && ab[1..] == a[1..] + b;
      RenderCausesAppend(a[1..], b, indent, show);
      var first := CauseLine(a[0], indent, show);
      var middle := RenderCauses(a[1..], indent, show);
      var last := RenderCauses(b, indent, show);
      assert RenderCauses(ab, indent, show) == first + (middle + last);
      assert RenderCauses(a, indent, show) == first + middle;
      ConcatAssoc(first, middle, last);
    }
  }

  /** Cause `i` is rendered after causes `0..i` and before the ones after it. */
  lemma RenderCausesAt(errs: seq<DeserializeError>, i: nat, indent: nat, show: Foreign)
    requires i < |errs|
    ensures RenderCauses(errs, indent, show)
      == RenderCauses(errs[..i], indent, show) + CauseLine(errs[i], indent, show)
         + RenderCauses(errs[i + 1..], indent, show)
  {
    assert errs == errs[..i] + errs[i..];
    RenderCausesAppend(errs[..i], errs[i..], indent, show);
    var tail := errs[i..];
    assert tail[0] == errs[i] && tail[1..] == errs[i + 1..];
    assert RenderCauses(tail, indent, show) == CauseLine(errs[i], indent, show) + RenderCauses(errs[i + 1..], indent, show);
    ConcatAssoc(RenderCauses(errs[..i], indent, show), CauseLine(errs[i], indent, show), RenderCauses(errs[i + 1..], indent, show));
  }

  /** Rendering one more cause appends its line; this is one pass of the
      `for e in errs` loop. */
  lemma RenderCausesSnoc(errs: seq<DeserializeError>, i: nat, indent: nat, show: Foreign)
    requires i < |errs|
    ensures RenderCauses(errs[..i + 1], indent, show)
      == RenderCauses(errs[..i], indent, show) + CauseLine(errs[i], indent, show)
  {
    assert errs[..i + 1] == errs[..i] + [errs[i]];
    RenderCausesAppend(errs[..i], [errs[i]], indent, show);
    assert [errs[i]][1..] == [];
    assert RenderCauses([errs[i]], indent, show) == CauseLine(errs[i], indent, show) + "";
    assert CauseLine(errs[i], indent, show) + "" == CauseLine(errs[i], indent, show);
  }

  function Concat(parts: seq<string>): string
    decreases |parts|
  {
    if parts == [] then "" else parts[0] + Concat(parts[1..])
  }

  /** An independent statement of `RenderCauses`: the lines of the causes,
      one per cause in list order, concatenated. */
  lemma {:induction false} RenderCausesIsConcat(errs: seq<DeserializeError>, indent: nat, show: Foreign)
    ensures RenderCauses(errs, indent, show)
      == Concat(seq(|errs|, i requires 0 <= i < |errs| => CauseLine(errs[i], indent, show)))
    decreases |errs|
  {
    var parts := seq(|errs|, i requires 0 <= i < |errs| => CauseLine(errs[i], indent, show));
    if errs != [] {
      RenderCausesIsConcat(errs[1..], indent, show);
      assert parts[1..] == seq(|errs[1..]|, i requires 0 <= i < |errs[1..]| => CauseLine(errs[1..][i], indent, show));
    }
  }

  /** `NoVariantMatchedWithCauses` renders its header, then every cause one
      level deeper, each starting with `indent + 1` tabs and followed by a
      newline, in list order; with no causes it renders the header alone. */
  lemma NoVariantMatchedWithCausesText(errs: seq<DeserializeError>, indent: nat, show: Foreign)
    ensures Message(NoVariantMatchedWithCauses(errs), indent, show)
      == CausesHeader + Concat(seq(|errs|, i requires 0 <= i < |errs| => CauseLine(errs[i], indent + 1, show)))
    ensures forall i :: 0 <= i < |errs| ==> CauseLine(errs[i], indent + 1, show) == Render(errs[i], indent + 1, show) + "\n"
    ensures errs == [] ==> Message(NoVariantMatchedWithCauses(errs), indent, show) == CausesHeader
    ensures forall i :: 0 <= i < |errs| ==> LeadingTabs(Render(errs[i], indent + 1, show)) == indent + 1
  {
    RenderCausesIsConcat(errs, indent + 1, show);
    forall i | 0 <= i < |errs| ensures LeadingTabs(Render(errs[i], indent + 1, show)) == indent + 1 {
      RenderIndent(errs[i], indent + 1, show);
    }
  }

  /** Each bounded `RangeCheck` message is the value found, the marker of
      its form, then the bounds present; the value and every bound read back
      from the text. */
  lemma RangeCheckForms(found: U64, min: Option<I64>, max: Option<I64>)
    ensures min.Some? && max.Some? ==>
              exists f: string, lo: string, hi: string ::
                && RangeCheckText(found, min, max) == f + InRangeMarker + lo + " - " + hi
                && AllDigits(f) && ParseNat(f) == found
                && IntText(lo) && ParseInt(lo) == min.value
                && IntText(hi) && ParseInt(hi) == max.value
    ensures min.Some? && max.None? ==>
              exists f: string, lo: string ::
                && RangeCheckText(found, min, max) == f + AtLeastMarker + lo
                && AllDigits(f) && ParseNat(f) == found
                && IntText(lo) && ParseInt(lo) == min.value
    ensures min.None? && max.Some? ==>
              exists f: string, hi: string ::
                && RangeCheckText(found, min, max) == f + AtMostMarker + hi
                && AllDigits(f) && ParseNat(f) == found
                && IntText(hi) && ParseInt(hi) == max.value
  {
    if min.Some? && max.Some? {
      InRangeForm(found, min.value, max.value);
    } else if min.Some? {
      AtLeastForm(found, min.value);
    } else if max.Some? {
      AtMostForm(found, max.value);
    }
  }

  lemma InRangeForm(found: U64, lo: I64, hi: I64)
    ensures exists f: string, l: string, h: string ::
              && RangeCheckText(found, Some(lo), Some(hi)) == f + InRangeMarker + l + " - " + h
              && AllDigits(f) && ParseNat(f) == found
              && IntText(l) && ParseInt(l) == lo
              && IntText(h) && ParseInt(h) == hi
  {
    var f, l, h := NatToString(found), IntToString(lo), IntToString(hi);
    ParseNatToString(found);
    IntToStringRoundTrip(lo);
    IntToStringRoundTrip(hi);
    InRangeText(found, lo, hi);
  }

  lemma InRangeText(found: U64, lo: I64, hi: I64)
    ensures RangeCheckText(found, Some(lo), Some(hi))
      == NatToString(found) + InRangeMarker + IntToString(lo) + " - " + IntToString(hi)
  {
    var f, l, h := NatToString(found), IntToString(lo), IntToString(hi);
    calc {
      f + (InRangeMarker + (l + " - " + h));
      { ConcatAssoc(f, InRangeMarker, l + " - " + h); }
      (f + InRangeMarker) + (l + " - " + h);
      { ConcatAssoc(f + InRangeMarker, l + " - ", h); ConcatAssoc(f + InRangeMarker, l, " - "); }
      f + InRangeMarker + l + " - " + h;
    }
  }

  lemma AtLeastForm(found: U64, lo: I64)
    ensures exists f: string, l: string ::
              && RangeCheckText(found, Some(lo), None) == f + AtLeastMarker + l
              && AllDigits(f) && ParseNat(f) == found
              && IntText(l) && ParseInt(l) == lo
  {
    var f, l := NatToString(found), IntToString(lo);
    ParseNatToString(found);
    IntToStringRoundTrip(lo);
    assert RangeCheckText(found, Some(lo), None) == f + (AtLeastMarker + l);
    ConcatAssoc(f, AtLeastMarker, l);
  }

  lemma AtMostForm(found: U64, hi: I64)
    ensures exists f: string, h: string ::
              && RangeCheckText(found, None, Some(hi)) == f + AtMostMarker + h
              && AllDigits(f) && ParseNat(f) == found
              && IntText(h) && ParseInt(h) == hi
  {
    var f, h := NatToString(found), IntToString(hi);
    ParseNatToString(found);
    IntToStringRoundTrip(hi);
    assert RangeCheckText(found, None, Some(hi)) == f + (AtMostMarker + h);
    ConcatAssoc(f, AtMostMarker, h);
  }

  /** The marker after the value found tells which bounds the check had:
      each bounded form is recognised by its own marker and by no other. */
  lemma RangeCheckMarkers(found: U64, min: Option<I64>, max: Option<I64>)
    ensures min.Some? && max.Some? <==> NatToString(found) + InRangeMarker <= RangeCheckText(found, min, max)
    ensures min.Some? && max.None? <==> NatToString(found) + AtLeastMarker <= RangeCheckText(found, min, max)
    ensures min.None? && max.Some? <==> NatToString(found) + AtMostMarker <= RangeCheckText(found, min, max)
  {
    var f := NatToString(found);
    var s := RangeCheckText(found, min, max);
    if min.Some? && max.Some? {
      var r := IntToString(min.value) + " - " + IntToString(max.value);
      MarkerLeads(f, InRangeMarker, r);
      MarkerClash(f, InRangeMarker, r, AtLeastMarker, 5);
      MarkerClash(f, InRangeMarker, r, AtMostMarker, 5);
    } else if min.Some? {
      var r := IntToString(min.value);
      MarkerLeads(f, AtLeastMarker, r);
      MarkerClash(f, AtLeastMarker, r, InRangeMarker, 5);
      MarkerClash(f, AtLeastMarker, r, AtMostMarker, 8);
    } else if max.Some? {
      var r := IntToString(max.value);
      MarkerLeads(f, AtMostMarker, r);
      MarkerClash(f, AtMostMarker, r, InRangeMarker, 5);
      MarkerClash(f, AtMostMarker, r, AtLeastMarker, 8);
    } else {
      NatToStringDigits(found);
      NoRangeNotLed(f, InRangeMarker);
      NoRangeNotLed(f, AtLeastMarker);
      NoRangeNotLed(f, AtMostMarker);
    }
  }

  lemma MarkerLeads(f: string, m: string, r: string)
    ensures f + m <= f + (m + r)
  {
    assert f + (m + r) == (f + m) + r;
  }

  /** Two markers that differ at position `k` cannot both follow the same value. */
  lemma MarkerClash(f: string, m: string, r: string, other: string, k: nat)
    requires k < |m| && k < |other| && m[k] != other[k]
    ensures !(f + other <= f + (m + r))
  {
    assert (f + (m + r))[|f| + k] == m[k];
    assert (f + other)[|f| + k] == other[k];
  }

  /** The fixed text does not start with a digit, so no value leads it. */
  lemma NoRangeNotLed(f: string, m: string)
    requires |f| > 0 && IsDigit(f[0])
    ensures !(f + m <= NoRangeText)
  {
    assert (f + m)[0] == f[0];
    assert NoRangeText[0] == 'i';
  }

  /** The fixed range text is used exactly when neither bound is present;
      every other form starts with the value that was found. */
  lemma RangeCheckNoBounds(found: U64, min: Option<I64>, max: Option<I64>)
    ensures RangeCheckText(found, min, max) == NoRangeText <==> min.None? && max.None?
    ensures !(min.None? && max.None?) ==> NatToString(found) + " " <= RangeCheckText(found, min, max)
  {
    if min.Some? && max.Some? {
      RangeCheckLeads(found, InRangeMarker + (IntToString(min.value) + " - " + IntToString(max.value)));
    } else if min.Some? {
      RangeCheckLeads(found, AtLeastMarker + IntToString(min.value));
    } else if max.Some? {
      RangeCheckLeads(found, AtMostMarker + IntToString(max.value));
    }
  }

  lemma RangeCheckLeads(found: U64, tail: string)
    requires |tail| > 0 && tail[0] == ' '
    ensures NatToString(found) + tail != NoRangeText
    ensures NatToString(found) + " " <= NatToString(found) + tail
  {
    var digits := NatToString(found);
    NatToStringDigits(found);
    LeadsWith(digits, tail);
    assert IsDigit((digits + tail)[0]);
    assert NoRangeText[0] == 'i';
  }

  lemma LeadsWith(lead: string, tail: string)
    requires |lead| > 0 && |tail| > 0 && tail[0] == ' '
    ensures (lead + tail)[0] == lead[0]
    ensures lead + " " <= lead + tail
  {
    assert (lead + tail)[..|lead| + 1] == lead + " ";
  }

  /** `DefiniteLenMismatch` appends ", expected: N" exactly when the expected
      count `N` is known. */
  lemma DefiniteLenMismatchForms(found: U64, expected: Option<U64>)
    ensures expected.None? ==> LenMismatchText(found, expected) == "Definite length mismatch: found " + NatToString(found)
    ensures expected.Some? ==>
              LenMismatchText(found, expected)
              == "Definite length mismatch: found " + NatToString(found) + ", expected: " + NatToString(expected.value)
    ensures expected.Some? <==> ',' in LenMismatchText(found, expected)
  {
    var digits := NatToString(found);
    var lead := "Definite length mismatch: found " + digits;
    NatToStringDigits(found);
    assert ',' !in lead by {
      forall i | 0 <= i < |lead| ensures lead[i] != ',' {
        if i >= 32 { assert lead[i] == digits[i - 32] && IsDigit(digits[i - 32]); }
      }
    }
    if expected.Some? {
      var text := LenMismatchText(found, expected);
      assert text[|lead|] == ',';
    }
  }

  /** `text` shows key `k`: a string key between double quotes, an unsigned
      integer key as digits that read back as it, a float key as `f64` prints. */
  predicate KeyShows(text: string, k: Key, show: Foreign) {
    match k
    case Str(s) => |text| >= 2 && text[0] == '"' && text[|text| - 1] == '"' && text[1..|text| - 1] == s
    case Uint(n) => AllDigits(text) && ParseNat(text) == n
    case Float(x) => text == show.showFloat(x)
  }

  /** A string key prints between double quotes; an unsigned integer key
      prints as bare decimal digits that read back as the key. So the two
      kinds of key can always be told apart. */
  lemma KeyTextForms(k: Key, show: Foreign)
    ensures k.Str? ==>
              && |KeyText(k, show)| >= 2
              && KeyText(k, show)[0] == '"'
              && KeyText(k, show)[|KeyText(k, show)| - 1] == '"'
              && KeyText(k, show)[1..|KeyText(k, show)| - 1] == k.text
    ensures k.Uint? ==> AllDigits(KeyText(k, show)) && ParseNat(KeyText(k, show)) == k.n
    ensures k.Uint? ==> KeyText(k, show)[0] != '"'
  {
    if k.Uint? {
      ParseNatToString(k.n);
    }
  }

  /** The fixed-value message names the expected key first, then the one
      found, and each key can be read from its part of the text. */
  lemma FixedValueMismatchText(found: Key, expected: Key, indent: nat, show: Foreign)
    ensures exists e: string, f: string ::
      && Message(FixedValueMismatch(found, expected), indent, show) == "Expected fixed value " + e + " found " + f
      && KeyShows(e, expected, show) && KeyShows(f, found, show)
  {
    var e, f := KeyText(expected, show), KeyText(found, show);
    KeyTextShows(expected, show);
    KeyTextShows(found, show);
    assert Message(FixedValueMismatch(found, expected), indent, show) == "Expected fixed value " + e + " found " + f;
  }

  lemma KeyTextShows(k: Key, show: Foreign)
    ensures KeyShows(KeyText(k, show), k, show)
  {
    KeyTextForms(k, show);
  }

  /** The tag message names the expected tag first, then the one found, and
      both numbers read back from it. */
  lemma TagMismatchText(found: U64, expected: U64, indent: nat, show: Foreign)
    ensures exists e: string, f: string ::
      Message(TagMismatch(found, expected), indent, show) == "Expected tag " + e + ", found " + f
      && AllDigits(e) && ParseNat(e) == expected && AllDigits(f) && ParseNat(f) == found
  {
    ParseNatToString(expected);
    ParseNatToString(found);
    var e, f := NatToString(expected), NatToString(found);
    assert Message(TagMismatch(found, expected), indent, show) == "Expected tag " + e + ", found " + f;
  }

  /** An error converted from a `cbor_event::Error` displays the library's
      own message after the location-less header. */
  lemma DisplayFromCbor(err: CborError, show: Foreign)
    ensures Display(FromCbor(err), show) == UnlocatedHeader + show.showCbor(err)
  {
    var e := FromCbor(err);
    assert Message(e.failure, 0, show) == show.showCbor(err);
    assert Render(e, 0, show) == Tabs(0) + UnlocatedHeader + show.showCbor(err);
    assert Tabs(0) == "";
  }
}
