/**
 * The colour table of the plotting module: a process-wide dictionary from
 * category labels to RGB triples, filled once from a reference file of
 * `label,hue,lightness,saturation[,...]` lines and extended on a lookup
 * miss with a random colour that is kept from then on.
 *
 * Parsing a number (`float`) and the HLS to RGB conversion
 * (`colorsys.hls_to_rgb`) work on floating point; they are parameters
 * here, `parse` and `hls`, about which nothing is assumed.
 */
module ColorTable {
  import opened Wrappers

  /** An RGB triple, as the table stores it. */
  datatype Color = Color(red: real, green: real, blue: real)

  /** What `get_color` returns: a stored triple, or a colour name. */
  datatype Paint = Rgb(color: Color) | Named(name: string)

  /** The fallback of `get_color` when the label is None. */
  const BLACK: Paint := Named("black")

  /** A value `random_sample` can return: each component in [0, 1). */
  predicate IsSample(c: Color)
  {
    0.0 <= c.red < 1.0 && 0.0 <= c.green < 1.0 && 0.0 <= c.blue < 1.0
  }

  // ---------------------------------------------------------------------
  // Splitting a line into fields
  // ---------------------------------------------------------------------

  /** `s.split(sep)`: the text between separators, empty fields included. */
  function Split(s: string, sep: char): (fields: seq<string>)
    ensures |fields| > 0
    decreases |s|
  {
    if s == [] then [""]
    else
      var rest := Split(s[1..], sep);
      if s[0] == sep then [""] + rest else [[s[0]] + rest[0]] + rest[1..]
  }

  /** `sep.join(fields)` */
  function Join(fields: seq<string>, sep: char): string
    requires |fields| > 0
  {
    if |fields| == 1 then fields[0] else fields[0] + [sep] + Join(fields[1..], sep)
  }

  /** No field of a split contains the separator. */
  lemma {:induction false} SplitFieldsAreFree(s: string, sep: char)
    ensures forall i :: 0 <= i < |Split(s, sep)| ==> sep !in Split(s, sep)[i]
    decreases |s|
  {
    if s != [] {
      SplitFieldsAreFree(s[1..], sep);
      var rest := Split(s[1..], sep);
      if s[0] != sep {
        assert forall i :: 1 <= i < |Split(s, sep)| ==> Split(s, sep)[i] == rest[i];
      }
    }
  }

  /** The join of `[p] + rest`: the first field, then the rest behind a separator. */
  lemma JoinFirst(p: string, rest: seq<string>, sep: char)
    ensures Join([p] + rest, sep) == p + (if rest == [] then "" else [sep] + Join(rest, sep))
  {
    assert ([p] + rest)[0] == p && ([p] + rest)[1..] == rest;
    if rest == [] {
      assert p + "" == p;
    } else {
      assert p + [sep] + Join(rest, sep) == p + ([sep] + Join(rest, sep));
    }
  }

  /** Joining the fields of a split gives the text back. */
  lemma {:induction false} JoinSplit(s: string, sep: char)
    ensures Join(Split(s, sep), sep) == s
    decreases |s|
  {
    if s != [] {
      JoinSplit(s[1..], sep);
      JoinSplitStep(s, sep);
    }
  }

  lemma JoinSplitStep(s: string, sep: char)
    requires s != [] && Join(Split(s[1..], sep), sep) == s[1..]
    ensures Join(Split(s, sep), sep) == s
  {
    var rest := Split(s[1..], sep);
    if s[0] == sep {
      assert Split(s, sep) == [""] + rest;
      JoinFirst("", rest, sep);
    } else {
      assert Split(s, sep) == [[s[0]] + rest[0]] + rest[1..];
      var tail := if rest[1..] == [] then "" else [sep] + Join(rest[1..], sep);
      assert Join(rest, sep) == rest[0] + tail by {
        assert [rest[0]] + rest[1..] == rest;
        JoinFirst(rest[0], rest[1..], sep);
      }
      JoinFirst([s[0]] + rest[0], rest[1..], sep);
      assert [s[0]] + rest[0] + tail == [s[0]] + (rest[0] + tail);
    }
    assert s == [s[0]] + s[1..];
  }

  /** Splitting joined fields that hold no separator gives the fields back. */
  lemma {:induction false} SplitJoin(fields: seq<string>, sep: char)
    requires |fields| > 0
    requires forall i :: 0 <= i < |fields| ==> sep !in fields[i]
    ensures Split(Join(fields, sep), sep) == fields
    decreases |fields|, |fields[0]|
  {
    var f := fields[0];
    if f == [] {
      if |fields| > 1 {
        SplitJoin(fields[1..], sep);
        SplitJoinEmpty(fields, sep);
      }
    } else {
      var shorter := [f[1..]] + fields[1..];
      assert sep !in f[1..] by {
        assert forall c :: c in f[1..] ==> c in f;
      }
      assert forall i :: 0 <= i < |shorter| ==> sep !in shorter[i] by {
        assert forall i :: 1 <= i < |shorter| ==> shorter[i] == fields[i];
      }
      SplitJoin(shorter, sep);
      assert f[0] != sep;
      SplitJoinChar(fields, sep);
    }
  }

  /** An empty first field: the text starts with the separator. */
  lemma SplitJoinEmpty(fields: seq<string>, sep: char)
    requires |fields| > 1 && fields[0] == []
    requires Split(Join(fields[1..], sep), sep) == fields[1..]
    ensures Split(Join(fields, sep), sep) == fields
  {
    var rest := Join(fields[1..], sep);
    assert Join(fields, sep) == [sep] + rest by {
      assert [fields[0]] + fields[1..] == fields;
      JoinFirst(fields[0], fields[1..], sep);
    }
    assert ([sep] + rest)[0] == sep && ([sep] + rest)[1..] == rest;
    assert fields == [""] + fields[1..];
  }

  /** A first field starting with a character other than the separator. */
  lemma SplitJoinChar(fields: seq<string>, sep: char)
    requires |fields| > 0 && fields[0] != [] && fields[0][0] != sep
    requires Split(Join([fields[0][1..]] + fields[1..], sep), sep) == [fields[0][1..]] + fields[1..]
    ensures Split(Join(fields, sep), sep) == fields
  {
    var f := fields[0];
    var j := Join([f[1..]] + fields[1..], sep);
    assert Join(fields, sep) == [f[0]] + j by {
      JoinGrow(f, fields[1..], sep);
    }
    assert Split([f[0]] + j, sep) == [[f[0]] + f[1..]] + fields[1..] by {
      SplitCons(f[0], j, sep);
    }
    assert f == [f[0]] + f[1..];
    assert fields == [f] + fields[1..];
  }

  /** A character other than the separator starts the first field. */
  lemma SplitCons(c: char, t: string, sep: char)
    requires c != sep
    ensures Split([c] + t, sep) == [[c] + Split(t, sep)[0]] + Split(t, sep)[1..]
  {
    assert ([c] + t)[0] == c && ([c] + t)[1..] == t;
  }

  /** The join of fields whose first field is not empty starts with its first character. */
  lemma JoinGrow(f: string, rest: seq<string>, sep: char)
    requires f != []
    ensures Join([f] + rest, sep) == [f[0]] + Join([f[1..]] + rest, sep)
  {
    var tail := if rest == [] then "" else [sep] + Join(rest, sep);
    JoinFirst(f, rest, sep);
    JoinFirst(f[1..], rest, sep);
    assert f == [f[0]] + f[1..];
    assert f + tail == [f[0]] + (f[1..] + tail);
  }

  // ---------------------------------------------------------------------
  // One line of the reference file
  // ---------------------------------------------------------------------

  /** `line[:-1]`: the last character (normally the newline) dropped. */
  function DropLast(s: string): string
  {
    if s == [] then s else s[..|s| - 1]
  }

  /** `line[:-1].split(',')` */
  function Fields(line: string): (fields: seq<string>)
    ensures |fields| > 0
  {
    Split(DropLast(line), ',')
  }

  /** `float(entries[i])`: the field is missing (IndexError), does not parse
      (ValueError) or gives a number. */
  datatype Number = Value(x: real) | Malformed | Missing

  function FieldNumber(fields: seq<string>, i: nat, parse: string -> Option<real>): Number
  {
    if i >= |fields| then Missing
    else match parse(fields[i])
      case Some(x) => Value(x)
      case None => Malformed
  }

  /** What one line does to the table. */
  datatype Effect = Skip | Insert(key: string, color: Color) | Raise

  /** One pass of the load loop. A line "\n" or one starting with '#' is
      skipped; the empty line raises IndexError at `line[0]`. Otherwise the
      three numbers are read left to right: a field that does not parse
      skips the line (the ValueError is caught), a missing field raises an
      IndexError that is not caught. */
  function LineEffect(line: string, parse: string -> Option<real>,
                      hls: (real, real, real) -> Color): Effect
  {
    if line == "\n" then Skip
    else if line == "" then Raise
    else if line[0] == '#' then Skip
    else
      var f := Fields(line);
      match FieldNumber(f, 1, parse)
      case Missing => Raise
      case Malformed => Skip
      case Value(h) =>
        match FieldNumber(f, 2, parse)
        case Missing => Raise
        case Malformed => Skip
        case Value(l) =>
          match FieldNumber(f, 3, parse)
          case Missing => Raise
          case Malformed => Skip
          case Value(s) => Insert(f[0], hls(h, l, s))
  }

  /** An uncaught exception of the load loop and the line that raised it. */
  datatype LoadError = IndexError(line: string)

  /** The table and, when the load aborted, the error. */
  datatype Loaded = Loaded(table: map<string, Color>, error: Option<LoadError>)

  /** The load loop run over `lines` on a table that holds `table`. */
  function LoadFrom(table: map<string, Color>, lines: seq<string>,
                    parse: string -> Option<real>, hls: (real, real, real) -> Color): Loaded
    decreases |lines|
  {
    if lines == [] then Loaded(table, None)
    else
      match LineEffect(lines[0], parse, hls)
      case Raise => Loaded(table, Some(IndexError(lines[0])))
      case Skip => LoadFrom(table, lines[1..], parse, hls)
      case Insert(k, c) => LoadFrom(table[k := c], lines[1..], parse, hls)
  }

  predicate NoRaise(lines: seq<string>, parse: string -> Option<real>, hls: (real, real, real) -> Color)
  {
    forall i :: 0 <= i < |lines| ==> LineEffect(lines[i], parse, hls) != Raise
  }

  /** Whether line `line` stores an entry under `k`. */
  predicate Stores(line: string, k: string, parse: string -> Option<real>, hls: (real, real, real) -> Color)
  {
    LineEffect(line, parse, hls).Insert? && LineEffect(line, parse, hls).key == k
  }

  // ---------------------------------------------------------------------
  // The table
  // ---------------------------------------------------------------------

  /** Every entry of `before` is still in `after`, with the same colour. */
  predicate Extends(before: map<string, Color>, after: map<string, Color>)
  {
    forall k :: k in before ==> k in after && after[k] == before[k]
  }

  /** `random_colors(N)`: N triples of `random_sample(3)`; none when N is
      negative, as `range(N)` is then empty. */
  method RandomColors(n: int) returns (colors: seq<Color>)
    ensures |colors| == if n < 0 then 0 else n
    ensures forall i :: 0 <= i < |colors| ==> IsSample(colors[i])
  {
    colors := [];
    var count := if n < 0 then 0 else n;
    for k := 0 to count
      invariant |colors| == k
      invariant forall i :: 0 <= i < k ==> IsSample(colors[i])
    {
      assert IsSample(Color(0.0, 0.0, 0.0));
      var rgb :| IsSample(rgb);
      colors := colors + [rgb];
    }
  }

  /** The module-level `color_dict`. */
  class Registry {
    var table: map<string, Color>

    /** `color_dict = {}` */
    constructor ()
      ensures table == map[]
    {
      table := map[];
    }

    /** The load loop over the lines of the reference file. An IndexError
        aborts it with the entries stored before it in the table; as the
        loop runs when the module is imported, the import then fails. */
    method Load(lines: seq<string>, parse: string -> Option<real>,
                hls: (real, real, real) -> Color) returns (error: Option<LoadError>)
      modifies this
      ensures Loaded(table, error) == LoadFrom(old(table), lines, parse, hls)
    {
      var i := 0;
      while i < |lines|
        invariant 0 <= i <= |lines|
        invariant LoadFrom(old(table), lines, parse, hls) == LoadFrom(table, lines[i..], parse, hls)
      {
        assert lines[i..][0] == lines[i] && lines[i..][1..] == lines[i + 1..];
        var effect := LineEffect(lines[i], parse, hls);
        if effect.Raise? {
          return Some(IndexError(lines[i]));
        }
        if effect.Insert? {
          table := table[effect.key := effect.color];
        }
        i := i + 1;
      }
      assert lines[i..] == [];
      error := None;
    }

    /** `get_color(name)`. A stored label gives its colour. An absent label
        is given a random colour, which is stored and returned. None stands
        for any hashable label that is not a string: it misses the lookup,
        building the warning message raises a TypeError before the insert,
        and 'black' is returned with nothing stored. */
    method GetColor(name: Option<string>) returns (p: Paint)
      modifies this
      ensures Extends(old(table), table)
      ensures name.None? ==> p == BLACK && table == old(table)
      ensures name.Some? && name.value in old(table) ==>
        p == Rgb(old(table)[name.value]) && table == old(table)
      ensures name.Some? && name.value !in old(table) ==>
        && name.value in table
        && table == old(table)[name.value := table[name.value]]
        && p == Rgb(table[name.value])
        && IsSample(table[name.value])
    {
      match name
      case None =>
        p := BLACK;
      case Some(k) =>
        if k in table {
          p := Rgb(table[k]);
        } else {
          var drawn := RandomColors(1);
          table := table[k := drawn[0]];
          p := Rgb(table[k]);
        }
    }

    /** Two lookups of the same label in a row give the same colour, and the
        second changes nothing. */
    method GetColorTwice(name: string) returns (first: Paint, second: Paint)
      modifies this
      ensures first == second && name in table && first == Rgb(table[name])
      ensures table == old(table)[name := table[name]]
      ensures name in old(table) ==> table == old(table)
    {
      first := GetColor(Some(name));
      ghost var between := table;
      second := GetColor(Some(name));
      assert table == between;
    }
  }

  // ---------------------------------------------------------------------
  // What the load leaves in the table
  // ---------------------------------------------------------------------

  /** The load aborts exactly at the first line that raises; the table then
      holds what the lines before it stored. */
  lemma {:induction false} LoadAbortsAtFirstRaise(table: map<string, Color>, lines: seq<string>, i: nat,
                                                 parse: string -> Option<real>, hls: (real, real, real) -> Color)
    requires i < |lines| && LineEffect(lines[i], parse, hls) == Raise
    requires NoRaise(lines[..i], parse, hls)
    ensures LoadFrom(table, lines, parse, hls)
         == Loaded(LoadFrom(table, lines[..i], parse, hls).table, Some(IndexError(lines[i])))
    decreases i
  {
    if i > 0 {
      assert lines[..i][0] == lines[0] && lines[..i][1..] == lines[1..][..i - 1];
      assert LineEffect(lines[..i][0], parse, hls) != Raise;
      var next := match LineEffect(lines[0], parse, hls)
        case Insert(k, c) => table[k := c]
        case _ => table;
      LoadAbortsAtFirstRaise(next, lines[1..], i - 1, parse, hls);
    }
  }

  /** Without a raising line the load completes. */
  lemma {:induction false} LoadCompletes(table: map<string, Color>, lines: seq<string>,
                                        parse: string -> Option<real>, hls: (real, real, real) -> Color)
    requires NoRaise(lines, parse, hls)
    ensures LoadFrom(table, lines, parse, hls).error == None
    decreases |lines|
  {
    if lines != [] {
      assert LineEffect(lines[0], parse, hls) != Raise;
      var next := match LineEffect(lines[0], parse, hls)
        case Insert(k, c) => table[k := c]
        case _ => table;
      LoadCompletes(next, lines[1..], parse, hls);
    }
  }

  /** A label that no line stores keeps whatever the table had under it. */
  lemma {:induction false} LoadKeepsUnstored(table: map<string, Color>, lines: seq<string>, k: string,
                                            parse: string -> Option<real>, hls: (real, real, real) -> Color)
    requires forall i :: 0 <= i < |lines| ==> !Stores(lines[i], k, parse, hls)
    ensures var t := LoadFrom(table, lines, parse, hls).table;
      (k in t <==> k in table) && (k in table ==> t[k] == table[k])
    decreases |lines|
  {
    if lines != [] {
      assert !Stores(lines[0], k, parse, hls);
      var next := match LineEffect(lines[0], parse, hls)
        case Insert(k', c) => table[k' := c]
        case _ => table;
      LoadKeepsUnstored(next, lines[1..], k, parse, hls);
    }
  }

  /** A later line with the same label overwrites an earlier one: the entry
      stored last under a label is the one the table holds. */
  lemma {:induction false} LoadLastWins(table: map<string, Color>, lines: seq<string>, i: nat,
                                       parse: string -> Option<real>, hls: (real, real, real) -> Color)
    requires NoRaise(lines, parse, hls)
    requires i < |lines| && LineEffect(lines[i], parse, hls).Insert?
    requires forall j :: i < j < |lines| ==> !Stores(lines[j], LineEffect(lines[i], parse, hls).key, parse, hls)
    ensures var e := LineEffect(lines[i], parse, hls);
      var t := LoadFrom(table, lines, parse, hls).table;
      e.key in t && t[e.key] == e.color
    decreases i
  {
    assert LineEffect(lines[0], parse, hls) != Raise;
    var next := match LineEffect(lines[0], parse, hls)
      case Insert(k, c) => table[k := c]
      case _ => table;
    if i == 0 {
      LoadKeepsUnstored(next, lines[1..], LineEffect(lines[0], parse, hls).key, parse, hls);
    } else {
      assert lines[1..][i - 1] == lines[i];
      LoadLastWins(next, lines[1..], i - 1, parse, hls);
    }
  }

  /** After a complete load the labels are those the table had and those
      some line stored. */
  lemma {:induction false} LoadKeys(table: map<string, Color>, lines: seq<string>,
                                   parse: string -> Option<real>, hls: (real, real, real) -> Color)
    requires NoRaise(lines, parse, hls)
    ensures forall k :: k in LoadFrom(table, lines, parse, hls).table <==>
      (k in table || exists i :: 0 <= i < |lines| && Stores(lines[i], k, parse, hls))
    decreases |lines|
  {
    if lines != [] {
      assert LineEffect(lines[0], parse, hls) != Raise;
      var next := match LineEffect(lines[0], parse, hls)
        case Insert(k, c) => table[k := c]
        case _ => table;
      LoadKeys(next, lines[1..], parse, hls);
      forall k
        ensures (exists i :: 0 <= i < |lines| && Stores(lines[i], k, parse, hls)) <==>
          (Stores(lines[0], k, parse, hls) || exists i :: 0 <= i < |lines[1..]| && Stores(lines[1..][i], k, parse, hls))
      {
        if exists i :: 0 <= i < |lines| && Stores(lines[i], k, parse, hls) {
          var i :| 0 <= i < |lines| && Stores(lines[i], k, parse, hls);
          if i > 0 {
            assert lines[1..][i - 1] == lines[i];
          }
        }
      }
    }
  }

  /** Fields after the fourth do not matter. */
  lemma ExtraFieldsIgnored(a: string, b: string, parse: string -> Option<real>, hls: (real, real, real) -> Color)
    requires a != "" && b != "" && a != "\n" && b != "\n" && a[0] != '#' && b[0] != '#'
    requires |Fields(a)| >= 4 && |Fields(b)| >= 4 && Fields(a)[..4] == Fields(b)[..4]
    ensures LineEffect(a, parse, hls) == LineEffect(b, parse, hls)
  {
    assert Fields(a)[0] == Fields(b)[0] && Fields(a)[1] == Fields(b)[1];
    assert Fields(a)[2] == Fields(b)[2] && Fields(a)[3] == Fields(b)[3];
  }

  /** The fields of a line written as comma-separated fields and a newline. */
  lemma FieldsOf(fields: seq<string>, line: string)
    requires |fields| > 0 && forall i :: 0 <= i < |fields| ==> ',' !in fields[i]
    requires line == Join(fields, ',') + "\n"
    ensures Fields(line) == fields
  {
    assert DropLast(line) == Join(fields, ',');
    SplitJoin(fields, ',');
  }

  /** A label and one number: a number that does not parse skips the line,
      because `float(entries[1])` raises a ValueError before `entries[2]` is
      looked at; a number that parses leaves `entries[2]` missing, and the
      IndexError aborts the load. */
  lemma TwoFieldLine(name: string, h: string, parse: string -> Option<real>, hls: (real, real, real) -> Color)
    requires ',' !in name && ',' !in h && (name == [] || name[0] != '#')
    ensures LineEffect(name + "," + h + "\n", parse, hls) == if parse(h).None? then Skip else Raise
  {
    var line := name + "," + h + "\n";
    var fs := [name, h];
    assert Fields(line) == fs by {
      assert fs[1..] == [h];
      assert line == Join(fs, ',') + "\n";
      FieldsOf(fs, line);
    }
    assert line[0] != '#' by {
      if name == [] {
        assert line[0] == ',';
      } else {
        assert line[0] == name[0];
      }
    }
    assert |line| >= 2;
  }

  lemma JoinFour(a: string, b: string, c: string, d: string)
    ensures Join([a, b, c, d], ',') == a + "," + b + "," + c + "," + d
  {
    var fs := [a, b, c, d];
    assert fs[1..] == [b, c, d] && fs[1..][1..] == [c, d] && fs[1..][1..][1..] == [d];
    assert Join([c, d], ',') == c + "," + d;
    assert Join([b, c, d], ',') == b + "," + c + "," + d;
  }

  /** A label and three numbers: the label is stored with the colour of
      the three numbers when all of them parse, and the line is skipped
      otherwise. */
  lemma FourFieldLine(name: string, h: string, l: string, s: string,
                      parse: string -> Option<real>, hls: (real, real, real) -> Color)
    requires ',' !in name && ',' !in h && ',' !in l && ',' !in s
    requires name == [] || name[0] != '#'
    ensures LineEffect(name + "," + h + "," + l + "," + s + "\n", parse, hls)
         == if parse(h).Some? && parse(l).Some? && parse(s).Some?
            then Insert(name, hls(parse(h).value, parse(l).value, parse(s).value))
            else Skip
  {
    var line := name + "," + h + "," + l + "," + s + "\n";
    var fs := [name, h, l, s];
    assert Fields(line) == fs by {
      JoinFour(name, h, l, s);
      FieldsOf(fs, line);
    }
    assert line[0] != '#' by {
      if name == [] {
        assert line[0] == ',';
      } else {
        assert line[0] == name[0];
      }
    }
    assert |line| >= 4;
  }

  /** A comment line is skipped whatever follows the '#'. */
  lemma CommentLine(text: string, parse: string -> Option<real>, hls: (real, real, real) -> Color)
    ensures LineEffect("#" + text, parse, hls) == Skip
  {
    assert ("#" + text)[0] == '#';
  }
}
