/**
 * Python's `%` operator applied to a string template and a tuple whose
 * entries are all the same string, as in `template % (db, db, db, db)`.
 * Only the `%s` conversion and the `%%` escape are modelled; every other
 * conversion fails.
 */
module PercentFormat {
  import opened Wrappers

  /** The exceptions `%` raises on a malformed template. */
  datatype FormatError =
    | NotEnoughArguments          // a conversion found the tuple used up
    | NotAllConverted             // the template ended with arguments left over
    | IncompleteFormat            // the template ends in a lone '%'
    | UnsupportedFormat(c: char)  // a conversion character other than 's'

  /** The event-file templates are finished with a 4-tuple `(db, db, db, db)`. */
  const ARITY: nat := 4

  function Prepend(s: string, r: Result<string, FormatError>): Result<string, FormatError>
  {
    match r
    case Ok(v) => Ok(s + v)
    case Err(e) => Err(e)
  }

  /**
   * `t % (arg,) * left`: the template is scanned left to right; each `%s`
   * consumes one argument, `%%` stands for one '%'. The order of the checks
   * follows CPython: a trailing '%' is an incomplete format before any
   * argument is fetched, a conversion with no argument left fails before
   * its conversion character is looked at, and arguments left over when the
   * template ends fail last.
   */
  function Interpolate(t: string, arg: string, left: nat): Result<string, FormatError>
    decreases |t|
  {
    if t == [] then
      if left == 0 then Ok("") else Err(NotAllConverted)
    else if t[0] != '%' then Prepend([t[0]], Interpolate(t[1..], arg, left))
    else if |t| == 1 then Err(IncompleteFormat)
    else if t[1] == '%' then Prepend("%", Interpolate(t[2..], arg, left))
    else if left == 0 then Err(NotEnoughArguments)
    else if t[1] == 's' then Prepend(arg, Interpolate(t[2..], arg, left - 1))
    else Err(UnsupportedFormat(t[1]))
  }

  /** `t % (db, db, db, db)`. */
  function Format(t: string, db: string): Result<string, FormatError>
  {
    Interpolate(t, db, ARITY)
  }

  // ---------------------------------------------------------------------
  // Reference reading of a template: literal pieces between conversions.
  // ---------------------------------------------------------------------

  /** The number of `%s` conversions in `t`, or None when some '%' in `t`
      starts neither `%s` nor `%%`. */
  function Conversions(t: string): Option<nat>
    decreases |t|
  {
    if t == [] then Some(0)
    else if t[0] != '%' then Conversions(t[1..])
    else if |t| == 1 then None
    else if t[1] == '%' then Conversions(t[2..])
    else if t[1] == 's' then
      match Conversions(t[2..])
      case Some(n) => Some(n + 1)
      case None => None
    else None
  }

  /** A literal written so that `%` reads it back unchanged: every '%' doubled. */
  function Escape(s: string): string
  {
    if s == [] then ""
    else if s[0] == '%' then "%%" + Escape(s[1..])
    else [s[0]] + Escape(s[1..])
  }

  /** The template whose literal pieces are `ps`, with one `%s` between neighbours. */
  function Template(ps: seq<string>): string
    requires |ps| > 0
  {
    if |ps| == 1 then Escape(ps[0]) else Escape(ps[0]) + "%s" + Template(ps[1..])
  }

  /** The pieces `ps` joined with `arg` in place of each conversion. */
  function Filled(ps: seq<string>, arg: string): string
    requires |ps| > 0
  {
    if |ps| == 1 then ps[0] else ps[0] + arg + Filled(ps[1..], arg)
  }

  /** The literal pieces of a well-formed template, `%%` read as '%'. */
  function Pieces(t: string): (ps: seq<string>)
    requires Conversions(t).Some?
    ensures |ps| == Conversions(t).value + 1
    decreases |t|
  {
    if t == [] then [""]
    else if t[0] != '%' then
      var ps := Pieces(t[1..]);
      [[t[0]] + ps[0]] + ps[1..]
    else if t[1] == '%' then
      var ps := Pieces(t[2..]);
      ["%" + ps[0]] + ps[1..]
    else [""] + Pieces(t[2..])
  }

  // ---------------------------------------------------------------------
  // Properties
  // ---------------------------------------------------------------------

  /** `%` succeeds exactly when every '%' starts `%s` or `%%` and the number
      of `%s` equals the number of arguments. */
  lemma {:induction false} InterpolateOkIff(t: string, arg: string, left: nat)
    ensures Interpolate(t, arg, left).Ok? <==> Conversions(t) == Some(left)
    decreases |t|
  {
    if t == [] {
    } else if t[0] != '%' {
      InterpolateOkIff(t[1..], arg, left);
    } else if |t| == 1 {
    } else if t[1] == '%' {
      InterpolateOkIff(t[2..], arg, left);
    } else if t[1] == 's' {
      if left > 0 {
        InterpolateOkIff(t[2..], arg, left - 1);
      } else {
        assert Conversions(t) != Some(0);
      }
    }
  }

  lemma PrependTwice(a: string, b: string, r: Result<string, FormatError>)
    ensures Prepend(a, Prepend(b, r)) == Prepend(a + b, r)
  {
    match r
    case Ok(v) => assert a + (b + v) == (a + b) + v;
    case Err(e) =>
  }

  /** A character other than '%' is copied. */
  lemma InterpolateLiteral(c: char, x: string, arg: string, left: nat)
    requires c != '%'
    ensures Interpolate([c] + x, arg, left) == Prepend([c], Interpolate(x, arg, left))
  {
    assert ([c] + x)[0] == c && ([c] + x)[1..] == x;
  }

  /** `%%` stands for one '%'. */
  lemma InterpolatePercent(x: string, arg: string, left: nat)
    ensures Interpolate("%%" + x, arg, left) == Prepend("%", Interpolate(x, arg, left))
  {
    assert ("%%" + x)[0] == '%' && ("%%" + x)[1] == '%' && ("%%" + x)[2..] == x;
  }

  /** `%s` is replaced by the argument, using one argument up. */
  lemma InterpolateConversion(x: string, arg: string, left: nat)
    requires left > 0
    ensures Interpolate("%s" + x, arg, left) == Prepend(arg, Interpolate(x, arg, left - 1))
  {
    assert ("%s" + x)[0] == '%' && ("%s" + x)[1] == 's' && ("%s" + x)[2..] == x;
  }

  /** The first character of an escaped literal is copied. */
  lemma InterpolateEscapeStep(s: string, rest: string, arg: string, left: nat)
    requires s != []
    ensures Interpolate(Escape(s) + rest, arg, left)
         == Prepend([s[0]], Interpolate(Escape(s[1..]) + rest, arg, left))
  {
    var x := Escape(s[1..]) + rest;
    if s[0] == '%' {
      assert Escape(s) + rest == "%%" + x;
      InterpolatePercent(x, arg, left);
    } else {
      assert Escape(s) + rest == [s[0]] + x;
      InterpolateLiteral(s[0], x, arg, left);
    }
  }

  /** An escaped literal is copied through unchanged. */
  lemma {:induction false} InterpolateEscape(s: string, rest: string, arg: string, left: nat)
    ensures Interpolate(Escape(s) + rest, arg, left) == Prepend(s, Interpolate(rest, arg, left))
    decreases |s|
  {
    var inner := Interpolate(rest, arg, left);
    if s == [] {
      assert Escape(s) + rest == rest;
      match inner
      case Ok(v) => assert s + v == v;
      case Err(e) =>
    } else {
      InterpolateEscape(s[1..], rest, arg, left);
      InterpolateEscapeStep(s, rest, arg, left);
      PrependTwice([s[0]], s[1..], inner);
      assert [s[0]] + s[1..] == s;
    }
  }

  /** Each `%s` of a template is replaced by the argument, and the literal
      pieces are kept verbatim and in order. */
  lemma {:induction false} InterpolateTemplate(ps: seq<string>, arg: string)
    requires |ps| > 0
    ensures Interpolate(Template(ps), arg, |ps| - 1) == Ok(Filled(ps, arg))
    decreases |ps|
  {
    if |ps| == 1 {
      InterpolateEscape(ps[0], "", arg, 0);
      assert Escape(ps[0]) + "" == Escape(ps[0]);
      assert ps[0] + "" == ps[0];
    } else {
      var rest := Template(ps[1..]);
      InterpolateTemplate(ps[1..], arg);
      InterpolatePiece(ps[0], rest, arg, |ps| - 1);
      assert Template(ps) == Escape(ps[0]) + ("%s" + rest);
    }
  }

  /** A piece and the conversion after it become the piece and the argument. */
  lemma InterpolatePiece(p: string, rest: string, arg: string, left: nat)
    requires left > 0
    ensures Interpolate(Escape(p) + ("%s" + rest), arg, left)
         == Prepend(p + arg, Interpolate(rest, arg, left - 1))
  {
    var inner := Interpolate(rest, arg, left - 1);
    assert Interpolate("%s" + rest, arg, left) == Prepend(arg, inner) by {
      InterpolateConversion(rest, arg, left);
    }
    assert Interpolate(Escape(p) + ("%s" + rest), arg, left) == Prepend(p, Prepend(arg, inner)) by {
      InterpolateEscape(p, "%s" + rest, arg, left);
    }
    PrependTwice(p, arg, inner);
  }

  lemma EscapeCons(c: char, s: string)
    ensures Escape([c] + s) == (if c == '%' then "%%" else [c]) + Escape(s)
  {
    assert ([c] + s)[0] == c && ([c] + s)[1..] == s;
  }

  /** The template of pieces `[p] + rest`: the escaped first piece, then
      the rest behind a `%s` when there is a rest. */
  lemma TemplateFirst(p: string, rest: seq<string>)
    ensures Template([p] + rest) == Escape(p) + (if rest == [] then "" else "%s" + Template(rest))
  {
    assert ([p] + rest)[0] == p && ([p] + rest)[1..] == rest;
    if rest == [] {
      assert Escape(p) + "" == Escape(p);
    } else {
      assert Escape(p) + "%s" + Template(rest) == Escape(p) + ("%s" + Template(rest));
    }
  }

  /** Growing the escape of the first piece by `x` grows the template by `x`. */
  lemma TemplateGrow(x: string, p: string, q: string, rest: seq<string>)
    requires Escape(p) == x + Escape(q)
    ensures Template([p] + rest) == x + Template([q] + rest)
  {
    var tail := if rest == [] then "" else "%s" + Template(rest);
    assert Template([p] + rest) == Escape(p) + tail by {
      TemplateFirst(p, rest);
    }
    assert Template([q] + rest) == Escape(q) + tail by {
      TemplateFirst(q, rest);
    }
    assert x + Escape(q) + tail == x + (Escape(q) + tail);
  }

  /** A new empty first piece puts a `%s` in front of the template. */
  lemma TemplateOpen(ps: seq<string>)
    requires |ps| > 0
    ensures Template([""] + ps) == "%s" + Template(ps)
  {
    assert ([""] + ps)[1..] == ps;
  }

  /** Reading a well-formed template into pieces and writing it back is the identity. */
  lemma {:induction false} TemplateOfPieces(t: string)
    requires Conversions(t).Some?
    ensures Template(Pieces(t)) == t
    decreases |t|
  {
    if t == [] {
    } else if t[0] != '%' {
      var ps := Pieces(t[1..]);
      assert Template(ps) == t[1..] by {
        TemplateOfPieces(t[1..]);
      }
      assert [ps[0]] + ps[1..] == ps;
      EscapeCons(t[0], ps[0]);
      TemplateGrow([t[0]], [t[0]] + ps[0], ps[0], ps[1..]);
      assert t == [t[0]] + t[1..];
    } else if t[1] == '%' {
      var ps := Pieces(t[2..]);
      assert Template(ps) == t[2..] by {
        TemplateOfPieces(t[2..]);
      }
      assert [ps[0]] + ps[1..] == ps;
      EscapeCons('%', ps[0]);
      assert "%" + ps[0] == ['%'] + ps[0];
      TemplateGrow("%%", "%" + ps[0], ps[0], ps[1..]);
      assert t == "%%" + t[2..];
    } else {
      var ps := Pieces(t[2..]);
      assert Template(ps) == t[2..] by {
        TemplateOfPieces(t[2..]);
      }
      TemplateOpen(ps);
      assert t == "%s" + t[2..];
    }
  }

  /** What `t % (db, db, db, db)` yields: when the template has exactly four
      `%s` (and no other conversion) its literal pieces joined by `db`, and
      otherwise a formatting error. */
  lemma FormatCharacterized(t: string, db: string)
    ensures Format(t, db).Ok? <==> Conversions(t) == Some(ARITY)
    ensures Format(t, db).Ok? ==> Format(t, db).value == Filled(Pieces(t), db)
  {
    InterpolateOkIff(t, db, ARITY);
    if Conversions(t) == Some(ARITY) {
      TemplateOfPieces(t);
      InterpolateTemplate(Pieces(t), db);
    }
  }

  /** The example of a single template with four placeholders. */
  lemma FormatFourPlaceholders(head: string, db: string)
    ensures Format(Template([head, ",", ",", ",", ")"]), db)
         == Ok(head + db + "," + db + "," + db + "," + db + ")")
  {
    var ps := [head, ",", ",", ",", ")"];
    assert Interpolate(Template(ps), db, 4) == Ok(Filled(ps, db)) by {
      InterpolateTemplate(ps, db);
    }
    assert Filled(ps, db) == head + db + "," + db + "," + db + "," + db + ")" by {
      FilledFour(head, db);
    }
  }

  lemma FilledFour(head: string, db: string)
    ensures Filled([head, ",", ",", ",", ")"], db) == head + db + "," + db + "," + db + "," + db + ")"
  {
    var ps := [head, ",", ",", ",", ")"];
    assert ps[1..] == [",", ",", ",", ")"];
    assert Filled([")"], db) == ")";
    assert Filled([",", ")"], db) == "," + db + ")";
    assert Filled([",", ",", ")"], db) == "," + db + "," + db + ")";
    assert Filled([",", ",", ",", ")"], db) == "," + db + "," + db + "," + db + ")";
  }

  /** The empty template fails: the four arguments are never converted. */
  lemma FormatEmptyFails(db: string)
    ensures Format("", db) == Err(NotAllConverted)
  {
  }
}
