# cddl-codegen decode errors, modelled in Dafny

cddl-codegen generates Rust CBOR encoders and decoders from CDDL schemas.
Every generated crate gets the same error model, `static/error.rs`. It
defines:

- `Key`, the key printed in diagnostics;
- `DeserializeFailure`, the closed set of reasons a decode can fail;
- `DeserializeError`, which pairs a failure with an optional dotted
  location such as `outer.plain.value`;
- `new` and `annotate`, which build that location by putting segments in
  front as the error travels outward;
- the two `From` conversions into a location-less error;
- `fmt_indent` and `Display`, which render an error tree as indented text.
  The causes of `NoVariantMatchedWithCauses` are rendered one tab deeper.

This project models all of that:

- `decimal.dfy` (module `Decimal`): the decimal text that `{}` prints for
  `u64`, `usize` and `isize`, and a parser that reads it back.
- `locations.dfy` (module `Locations`): dotted paths. `Split` reads a path
  into its segments and `Join` writes segments out as a path.
- `deserialize_errors.dfy` (module `DeserializeErrors`):
  - the datatypes;
  - `New`, `Annotate`, `FromFailure` and `FromCbor`;
  - the rendered text as a pure specification (`Render`, `Message`,
    `RenderCauses`, `Display`);
  - lemmas about annotation and about the rendered text.
- `error_format.dfy` (module `ErrorFormat`): `fmt_indent` as the source runs
  it. A `Formatter` class stands for the sink. The tabs are written in one
  loop and the causes in another, with one recursive call per cause. Each
  method is proved to write exactly `Render`'s text.

The foreign values are opaque types. Their text comes from the `Foreign`
record of rendering functions, so every property holds whatever those
functions return. The foreign values are:

- `cbor_event::Error`;
- `cbor_event::Type`;
- `Box<dyn std::error::Error>`;
- the `f64` of `Key::Float`.

## Model

| member | source | states |
|---|---|---|
| `Decimal.NatToString` | static/error.rs:15 | defines the decimal text `{}` prints for an unsigned integer, most significant digit first; it is never empty |
| `Decimal.NatToStringDigits` | static/error.rs:15 | an unsigned integer prints as decimal digits only, with a leading `0` only for zero |
| `Decimal.ParseNatToString` | static/error.rs:15 | reading the printed digits of an unsigned integer back gives the same integer |
| `Decimal.NatToStringInjective` | static/error.rs:15 | two unsigned integers print the same text exactly when they are equal |
| `Decimal.IntToString` | static/error.rs:110-112 | defines the text `{}` prints for a signed bound: `-` before the magnitude's digits when negative; it is never empty |
| `Decimal.IntToStringDigits` | static/error.rs:110-112 | a signed range bound prints with a leading `-` exactly when negative, and digits after it |
| `Decimal.IntToStringRoundTrip` | static/error.rs:110-112 | reading a printed signed bound back gives the bound |
| `Locations.SplitDot` | static/error.rs:68 | the segments of `a.b` are the segments of `a` followed by those of `b` |
| `Locations.SplitNoDot` | static/error.rs:68 | no segment read from a path holds a dot |
| `Locations.SplitJoin` | static/error.rs:66-71 | joining dot-free segments with `.` and splitting the result gives back the same segments |
| `Locations.JoinSplit` | static/error.rs:66-71 | splitting a path and joining its segments gives back the same path |
| `DeserializeErrors.New` | static/error.rs:59-64 | `new(loc, f)` has location `Some(loc)` and failure exactly `f` |
| `DeserializeErrors.Annotate` | static/error.rs:66-71 | the failure is kept and the location is always present afterwards. It is `seg.old` when there was a location `old` and `seg` otherwise. The path's segments are those of `seg` followed by the old ones |
| `DeserializeErrors.FromFailure` | static/error.rs:128-135 | converting a failure gives an error with no location and that failure |
| `DeserializeErrors.FromCbor` | static/error.rs:137-144 | converting a `cbor_event::Error` gives no location and `CBOR(err)` with the same error inside |
| `DeserializeErrors.AnnotateFromFailure` | static/error.rs:66-71 | annotating a location-less error is the same as building it with `new` |
| `DeserializeErrors.AnnotateTwice` | static/error.rs:66-71 | annotating with `a` and then `b` gives `b.a`, or `b.a.old` when the location was `old`. The failure is kept |
| `DeserializeErrors.AnnotateAllPath` | static/error.rs:66-71 | after any number of dot-free annotations, the path is those segments, the latest first, followed by the old path. No segment is dropped, the failure is kept and a location is present |
| `DeserializeErrors.KeyText` | static/error.rs:11-18 | defines `Display for Key`: a string key between double quotes, an unsigned key as its digits, a float key as `f64` prints |
| `DeserializeErrors.Header` | static/error.rs:78-81 | defines the header after the tabs: `Deserialization failed in <loc> because: ` with a location, `Deserialization: ` without |
| `DeserializeErrors.Render` | static/error.rs:73-82 | defines the text `fmt_indent` writes: `indent` tabs, the header, then the failure's message |
| `DeserializeErrors.Message` | static/error.rs:83-118 | defines the message after the header: for `NoVariantMatchedWithCauses` its header line, then its causes one level deeper; otherwise `LeafMessage` |
| `DeserializeErrors.LeafMessage` | static/error.rs:83-118 | defines the message of every other failure, with the source's literals and argument order |
| `DeserializeErrors.RenderIndent` | static/error.rs:73-81 | the rendered text starts with exactly `indent` tabs, followed by the header for its location |
| `DeserializeErrors.HeaderShowsLocation` | static/error.rs:78-81 | after the tabs, the text starts with `Deserialization failed in ` exactly when a location is present, and with `Deserialization: ` exactly when it is not |
| `DeserializeErrors.Display` | static/error.rs:122-126 | `Display` is the rendering at indent 0: it has no leading tab and starts with the header |
| `DeserializeErrors.RenderCausesAppend` | static/error.rs:103-106 | the causes of a concatenated list render as the causes of each part, in order |
| `DeserializeErrors.RenderCausesAt` | static/error.rs:103-106 | cause `i`'s line stands after the lines of causes `0..i` and before those of the later causes |
| `DeserializeErrors.RenderCausesSnoc` | static/error.rs:103-106 | one more pass of the cause loop appends that cause's rendering and a newline |
| `DeserializeErrors.RenderCausesIsConcat` | static/error.rs:101-108 | the causes' text is the concatenation, in list order, of one line per cause: the cause's rendering, then `\n` |
| `DeserializeErrors.NoVariantMatchedWithCausesText` | static/error.rs:101-108 | the message is `No variant matched. Failures:\n` followed by every cause rendered at `indent + 1` plus `\n`, in order. Each cause starts with `indent + 1` tabs. With no causes it is the header alone |
| `DeserializeErrors.RangeCheckForms` | static/error.rs:109-112 | each bounded `RangeCheck` message is the found value, the form's marker (` not in range `, ` not at least `, ` not at most `) and the bounds present (`lo - hi` for a range). The value reads back through `ParseNat` and every bound through `ParseInt` |
| `DeserializeErrors.RangeCheckMarkers` | static/error.rs:109-113 | the message starts with the found value and ` not in range ` exactly when both bounds are present, with ` not at least ` exactly when only `min` is, and with ` not at most ` exactly when only `max` is |
| `DeserializeErrors.RangeCheckNoBounds` | static/error.rs:109-114 | the fixed text `invalid range (no min nor max specified)` appears exactly when both bounds are missing. Every other form starts with the found value and a space |
| `DeserializeErrors.DefiniteLenMismatchForms` | static/error.rs:85-91 | `, expected: N` is appended exactly when `expected` is `Some(N)`. Without it the message holds no comma |
| `DeserializeErrors.KeyTextForms` | static/error.rs:11-18 | a `Key::Str` prints between double quotes with the string inside. A `Key::Uint` prints as bare decimal digits that read back as the key, so it never starts with a quote |
| `DeserializeErrors.FixedValueMismatchText` | static/error.rs:95 | the fixed-value message names the expected key first and the found key second. Each part shows its key: quoted text, digits that read back, or the `f64` text |
| `DeserializeErrors.TagMismatchText` | static/error.rs:115 | the tag message names the expected tag first and the found tag second, and both numbers read back from it |
| `DeserializeErrors.DisplayFromCbor` | static/error.rs:137-144 | a converted `cbor_event::Error` displays as `Deserialization: ` followed by the library's own message |
| `ErrorFormat.FmtIndent` | static/error.rs:73-119 | the tab loop, the header write, the two-write length mismatch, the cause loop and the single-write messages together append exactly `Render(e, indent)` to the formatter |
| `ErrorFormat.FmtCauses` | static/error.rs:103-106 | the `for e in errs` loop appends exactly the causes' text, each at `indent` and followed by `\n` |
| `ErrorFormat.Fmt` | static/error.rs:122-126 | `Display::fmt` appends exactly the indent-0 rendering |
| `ErrorFormat.DisplayString` | static/error.rs:122-126 | the message obtained through `Display` on a fresh formatter is `Display(e)` |

## Left out

- `ErrorFormat.FmtIndent`: the source's `indent` is a `u32`. The model uses
  an unbounded `nat`, so the `indent + 1` overflow at 2^32 nesting levels is
  not modelled.
- `ErrorFormat.FmtIndent`: `fmt::Result` errors returned by the formatter and
  passed on by `?` are not modelled. Writes are infallible appends because the
  formatter is an external sink.
- `DeserializeErrors.KeyTextForms`: the text of `Key::Float` is not stated.
  `f64` formatting is floating-point library code, so it is a parameter.
- The text of `cbor_event::Error` (`Display`), of `cbor_event::Type`
  (`Debug`) and of `Box<dyn std::error::Error>` (`Display`) is not modelled.
  These are foreign library calls, so they are parameters in `Foreign`.
- The `#[derive(Debug)]` output of `Key`, `DeserializeFailure` and
  `DeserializeError` is left out. It is compiler-generated and not part of
  the error model's contract.
- `usize` and `isize` are taken to be 64 bits wide (`Decimal.U64`,
  `Decimal.I64`).
- The generic `T: Into<String>` parameters of `new` and `annotate` are
  plain strings.
- The generated encoders and decoders (structs, tables, choices, tags) are
  not part of this model. They are produced per schema and are not in the
  error model's source.
- `src/test.rs` is not part of this model. It runs the generator and cargo
  as subprocesses and splices files.
- `tests/core/tests.rs` is not part of this model. Its round trips exercise
  generated types whose code is not in the error model.
