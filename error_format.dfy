/** `fmt_indent` and `Display for DeserializeError` as the source runs them:
    writes into a formatter, tabs in one loop, causes in another with a
    recursive call per cause. Each method is proved to write exactly the
    text that the specification `DeserializeErrors.Render` gives. */
module ErrorFormat {
  import opened Decimal
  import opened DeserializeErrors

  /** `std::fmt::Formatter` as a sink: everything written so far. */
  class Formatter {
    var written: string

    constructor ()
      ensures written == ""
    {
      written := "";
    }

    /** `write!(f, ...)`: appends the formatted text. */
    method WriteStr(s: string)
      modifies this
      ensures written == old(written) + s
    {
      written := written + s;
    }
  }

  /** `DeserializeError::fmt_indent(&self, f, indent)`. */
  method FmtIndent(e: DeserializeError, f: Formatter, indent: nat, show: Foreign)
    modifies f
    ensures f.written == old(f.written) + Render(e, indent, show)
    decreases e
  {
    for i := 0 to indent
      invariant f.written == old(f.written) + Tabs(i)
    {
      f.WriteStr("\t");
    }
    match e.location {
      case Some(loc) => f.WriteStr("Deserialization failed in " + loc + " because: ");
      case None => f.WriteStr("Deserialization: ");
    }
    ghost var start := f.written;
    assert start == old(f.written) + Tabs(indent) + Header(e.location);
    if e.failure.DefiniteLenMismatch? {
      var found, expected := e.failure.found, e.failure.expected;
      f.WriteStr("Definite length mismatch: found " + NatToString(found));
      if expected.Some? {
        f.WriteStr(", expected: " + NatToString(expected.value));
      }
      assert f.written == start + LenMismatchText(found, expected);
    } else if e.failure.NoVariantMatchedWithCauses? {
      f.WriteStr("No variant matched. Failures:\n");
      FmtCauses(e.failure.causes, f, indent + 1, show);
    } else {
      f.WriteStr(LeafMessage(e.failure, show));
    }
    assert f.written == start + Message(e.failure, indent, show);
    assert Render(e, indent, show) == Tabs(indent) + Header(e.location) + Message(e.failure, indent, show);
    ConcatAssoc(old(f.written), Tabs(indent), Header(e.location));
    ConcatAssoc(old(f.written), Tabs(indent) + Header(e.location), Message(e.failure, indent, show));
  }

  /** The `for e in errs` loop of `fmt_indent`: each cause at `indent`,
      followed by a newline. */
  method FmtCauses(errs: seq<DeserializeError>, f: Formatter, indent: nat, show: Foreign)
    modifies f
    ensures f.written == old(f.written) + RenderCauses(errs, indent, show)
    decreases errs
  {
    for i := 0 to |errs|
      invariant f.written == old(f.written) + RenderCauses(errs[..i], indent, show)
    {
      ghost var done := RenderCauses(errs[..i], indent, show);
      FmtIndent(errs[i], f, indent, show);
      f.WriteStr("\n");
      RenderCausesSnoc(errs, i, indent, show);
      assert f.written == old(f.written) + done + (Render(errs[i], indent, show) + "\n");
      ConcatAssoc(old(f.written), done, CauseLine(errs[i], indent, show));
    }
    assert errs[..|errs|] == errs;
  }

  /** `Display for DeserializeError`: `fmt_indent` at indent 0. */
  method Fmt(e: DeserializeError, f: Formatter, show: Foreign)
    modifies f
    ensures f.written == old(f.written) + Display(e, show)
  {
    FmtIndent(e, f, 0, show);
  }

  /** The message a caller gets from `to_string()`, which goes through
      `Display` on a fresh formatter. */
  method DisplayString(e: DeserializeError, show: Foreign) returns (s: string)
    ensures s == Display(e, show)
  {
    var f := new Formatter();
    Fmt(e, f, show);
    s := f.written;
  }
}
