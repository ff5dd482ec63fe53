/**
 * The event-file reader `read_eventfile`: a FASTA-like list of named SQL
 * templates. A marker line starts with "+>" and names a group; the
 * non-blank lines after it are that group's template, which is finished
 * with `% (db, db, db, db)`.
 *
 * The input is the file as `readlines` returns it: a sequence of lines,
 * each ending in "\n" except possibly the last.
 */
module EventFile {
  import opened Wrappers
  import opened PercentFormat

  const MARKER: string := "+>"
  const BLANK: string := "\n"

  function Last<T>(s: seq<T>): T
    requires |s| > 0
  {
    s[|s| - 1]
  }

  function AllButLast<T>(s: seq<T>): seq<T>
    requires |s| > 0
  {
    s[..|s| - 1]
  }

  /** `line[:2] == '+>'` */
  predicate IsMarker(line: string)
  {
    |line| >= 2 && line[..2] == MARKER
  }

  /** `line[2:-1]`: the marker and the last character, whatever it is, dropped. */
  function Name(line: string): string
  {
    if |line| >= 3 then line[2..|line| - 1] else ""
  }

  /** The names a single line contributes. */
  function NamesOf(line: string): seq<string>
  {
    if IsMarker(line) then [Name(line)] else []
  }

  /** The group names, one per marker line, in file order. */
  function Names(lines: seq<string>): seq<string>
  {
    if lines == [] then [] else Names(AllButLast(lines)) + NamesOf(Last(lines))
  }

  /** The text collected so far, one chunk per marker plus the chunk before
      the first marker, extended by one more line: a marker opens an empty
      chunk, a line equal to "\n" is dropped, any other line is appended
      verbatim to the open chunk. */
  function Extend(c: seq<string>, line: string): (d: seq<string>)
    requires |c| > 0
    ensures |d| == |c| + |NamesOf(line)|
  {
    if IsMarker(line) then c + [""]
    else if line == BLANK then c
    else AllButLast(c) + [Last(c) + line]
  }

  /** Chunk 0 is the content before the first marker; chunk i > 0 is the
      content between marker i and the next marker or the end of the file. */
  function Chunks(lines: seq<string>): (c: seq<string>)
    ensures |c| == |Names(lines)| + 1
  {
    if lines == [] then [""] else Extend(Chunks(AllButLast(lines)), Last(lines))
  }

  /** The template of each group. Content before the first marker is glued
      onto the first group's template; without any marker the one template
      is the content of the whole file. */
  function Templates(lines: seq<string>): (ts: seq<string>)
    ensures |ts| == if Names(lines) == [] then 1 else |Names(lines)|
  {
    GlueFirst(Chunks(lines))
  }

  /** The first two chunks joined. */
  function GlueFirst(c: seq<string>): (ts: seq<string>)
    requires |c| > 0
    ensures |ts| == if |c| == 1 then 1 else |c| - 1
  {
    if |c| == 1 then c else [c[0] + c[1]] + c[2..]
  }

  /** Each template finished with `% (db, db, db, db)`, left to right; the
      first formatting error is raised. */
  function FormatAll(ts: seq<string>, db: string): (r: Result<seq<string>, FormatError>)
    ensures r.Ok? ==> |r.value| == |ts|
  {
    if ts == [] then Ok([])
    else
      match FormatAll(AllButLast(ts), db)
      case Err(e) => Err(e)
      case Ok(ss) =>
        match Format(Last(ts), db)
        case Err(e) => Err(e)
        case Ok(s) => Ok(ss + [s])
  }

  /** The two parallel lists `read_eventfile` returns. */
  datatype Events = Events(names: seq<string>, statements: seq<string>)

  /** What reading the event file yields: the names and the finished
      templates, or the formatting error that aborts the read. */
  function Resolve(lines: seq<string>, db: string): Result<Events, FormatError>
  {
    match FormatAll(Templates(lines), db)
    case Err(e) => Err(e)
    case Ok(ss) => Ok(Events(Names(lines), ss))
  }

  /** `read_eventfile(eventfile, db)` on the lines of the file. */
  method ReadEventfile(lines: seq<string>, db: string) returns (r: Result<Events, FormatError>)
    ensures r == Resolve(lines, db)
  {
    var names: seq<string> := [];
    var statements: seq<string> := [];
    var statement := "";
    var i := 0;
    ghost var ts := [""];  // the templates of lines[..i]
    ReadNothing(db);
    while i < |lines|
      invariant 0 <= i <= |lines|
      invariant Reading(lines[..i], db, names, ts, statement, statements)
    {
      var line := lines[i];
      ghost var seen := lines[..i];
      assert lines[..i + 1] == seen + [line];
      if IsMarker(line) {
        names := names + [Name(line)];
        // only from the second marker on is the previous template finished
        if |names| != 1 {
          var finished := Format(statement, db);
          if finished.Err? {
            ReadAbort(lines, i, db, names[..|names| - 1], ts, statement, statements);
            return Err(finished.error);
          }
          ReadMarker(seen, line, db, names[..|names| - 1], ts, statement, statements);
          statements := statements + [finished.value];
          statement := "";
          ts := ts + [""];
        } else {
          ReadFirstMarker(seen, line, db, names[..0], ts, statement, statements);
        }
      } else if line != BLANK {
        ReadText(seen, line, db, names, ts, statement, statements);
        statement := statement + line;
        ts := AllButLast(ts) + [Last(ts) + line];
      } else {
        ReadBlank(seen, line, db, names, ts, statement, statements);
      }
      i := i + 1;
    }
    assert lines[..i] == lines;
    ReadDone(lines, db, names, ts, statement, statements);
    var finished := Format(statement, db);
    if finished.Err? {
      return Err(finished.error);
    }
    statements := statements + [finished.value];
    r := Ok(Events(names, statements));
  }

  // ---------------------------------------------------------------------
  // The state of the reader after a prefix of the file
  // ---------------------------------------------------------------------

  /** After the lines `seen`: one name per marker so far, the open
      template is the last template so far, and the templates before it
      are finished. */
  ghost predicate Reading(seen: seq<string>, db: string, names: seq<string>, ts: seq<string>,
                          statement: string, statements: seq<string>)
  {
    && names == Names(seen)
    && ts == Templates(seen)
    && statement == Last(ts)
    && FormatAll(AllButLast(ts), db) == Ok(statements)
  }

  lemma ReadNothing(db: string)
    ensures Reading([], db, [], [""], "", [])
  {
    assert Templates([]) == [""];
  }

  /** The first marker adds its name and opens no template. */
  lemma ReadFirstMarker(seen: seq<string>, line: string, db: string, names: seq<string>,
                        ts: seq<string>, statement: string, statements: seq<string>)
    requires Reading(seen, db, names, ts, statement, statements)
    requires IsMarker(line) && names == []
    ensures Reading(seen + [line], db, names + [Name(line)], ts, statement, statements)
  {
    StepMarker(seen, line);
  }

  /** A later marker adds its name and finishes the open template. */
  lemma ReadMarker(seen: seq<string>, line: string, db: string, names: seq<string>,
                   ts: seq<string>, statement: string, statements: seq<string>)
    requires Reading(seen, db, names, ts, statement, statements)
    requires IsMarker(line) && names != [] && Format(statement, db).Ok?
    ensures Reading(seen + [line], db, names + [Name(line)], ts + [""], "",
                    statements + [Format(statement, db).value])
  {
    StepMarker(seen, line);
    FormatAllSnoc(ts, db);
    SnocParts(ts, "");
  }

  /** A later marker whose open template does not format ends the read with that error. */
  lemma ReadAbort(lines: seq<string>, i: nat, db: string, names: seq<string>,
                  ts: seq<string>, statement: string, statements: seq<string>)
    requires i < |lines| && Reading(lines[..i], db, names, ts, statement, statements)
    requires IsMarker(lines[i]) && names != [] && Format(statement, db).Err?
    ensures Resolve(lines, db) == Err(Format(statement, db).error)
  {
    StepMarker(lines[..i], lines[i]);
    FormatAllSnoc(ts, db);
    SnocParts(ts, "");
    AbortAt(lines, i, db);
  }

  /** A line other than a marker or "\n" is appended to the open template. */
  lemma ReadText(seen: seq<string>, line: string, db: string, names: seq<string>,
                 ts: seq<string>, statement: string, statements: seq<string>)
    requires Reading(seen, db, names, ts, statement, statements)
    requires !IsMarker(line) && line != BLANK
    ensures Reading(seen + [line], db, names, AllButLast(ts) + [Last(ts) + line], statement + line, statements)
  {
    StepText(seen, line);
    SnocParts(AllButLast(ts), Last(ts) + line);
  }

  /** A line "\n" changes nothing. */
  lemma ReadBlank(seen: seq<string>, line: string, db: string, names: seq<string>,
                  ts: seq<string>, statement: string, statements: seq<string>)
    requires Reading(seen, db, names, ts, statement, statements)
    requires !IsMarker(line) && line == BLANK
    ensures Reading(seen + [line], db, names, ts, statement, statements)
  {
    StepBlank(seen, line);
  }

  /** After the last line the open template is finished too. */
  lemma ReadDone(lines: seq<string>, db: string, names: seq<string>,
                 ts: seq<string>, statement: string, statements: seq<string>)
    requires Reading(lines, db, names, ts, statement, statements)
    ensures Resolve(lines, db) ==
      match Format(statement, db)
      case Err(e) => Err(e)
      case Ok(s) => Ok(Events(names, statements + [s]))
  {
    FormatAllSnoc(ts, db);
  }

  /** A marker adds its name; after the first marker it opens a new, empty
      template, while the first marker opens none. */
  lemma StepMarker(p: seq<string>, line: string)
    requires IsMarker(line)
    ensures Names(p + [line]) == Names(p) + [Name(line)]
    ensures Templates(p + [line]) == if Names(p) == [] then Templates(p) else Templates(p) + [""]
  {
    TemplatesStep(p, line);
    NamesSnoc(p, line);
  }

  /** A line "\n" changes nothing. */
  lemma StepBlank(p: seq<string>, line: string)
    requires !IsMarker(line) && line == BLANK
    ensures Names(p + [line]) == Names(p) && Templates(p + [line]) == Templates(p)
  {
    TemplatesStep(p, line);
    NamesSnoc(p, line);
    assert Names(p) + [] == Names(p);
  }

  /** Any other line is appended to the last template. */
  lemma StepText(p: seq<string>, line: string)
    requires !IsMarker(line) && line != BLANK
    ensures Names(p + [line]) == Names(p)
    ensures Templates(p + [line]) == AllButLast(Templates(p)) + [Last(Templates(p)) + line]
  {
    TemplatesStep(p, line);
    NamesSnoc(p, line);
    assert Names(p) + [] == Names(p);
  }

  /** A template that fails once the line after it has begun the next
      template fails the whole read. */
  lemma AbortAt(lines: seq<string>, i: nat, db: string)
    requires i < |lines|
    requires FormatAll(AllButLast(Templates(lines[..i] + [lines[i]])), db).Err?
    ensures Resolve(lines, db) == Err(FormatAll(AllButLast(Templates(lines[..i] + [lines[i]])), db).error)
  {
    assert lines[..i] + [lines[i]] == lines[..i + 1];
    var front := AllButLast(Templates(lines[..i + 1]));
    TemplatesPrefix(lines, i + 1);
    FormatAllPrefix(Templates(lines), |front|, db);
  }

  lemma SnocParts<T>(s: seq<T>, x: T)
    ensures AllButLast(s + [x]) == s && Last(s + [x]) == x
  {
  }

  /** The last template is formatted after all the others. */
  lemma FormatAllSnoc(ts: seq<string>, db: string)
    requires |ts| > 0
    ensures FormatAll(ts, db) ==
      match FormatAll(AllButLast(ts), db)
      case Err(e) => Err(e)
      case Ok(ss) =>
        match Format(Last(ts), db)
        case Err(e) => Err(e)
        case Ok(s) => Ok(ss + [s])
  {
  }

  // ---------------------------------------------------------------------
  // How the templates grow line by line
  // ---------------------------------------------------------------------

  lemma ChunksSnoc(p: seq<string>, line: string)
    ensures Names(p + [line]) == Names(p) + NamesOf(line)
    ensures Chunks(p + [line]) == Extend(Chunks(p), line)
  {
    assert AllButLast(p + [line]) == p && Last(p + [line]) == line;
  }

  lemma GlueFirstOpen(c: seq<string>)
    requires |c| > 0
    ensures GlueFirst(c + [""]) == if |c| == 1 then c else GlueFirst(c) + [""]
  {
    if |c| == 1 {
      assert c[0] + "" == c[0];
    } else {
      assert (c + [""])[2..] == c[2..] + [""];
    }
  }

  lemma GlueFirstAppend(c: seq<string>, line: string)
    requires |c| > 0
    ensures GlueFirst(AllButLast(c) + [Last(c) + line])
         == AllButLast(GlueFirst(c)) + [Last(GlueFirst(c)) + line]
  {
    var d := AllButLast(c) + [Last(c) + line];
    if |c| == 2 {
      assert d == [c[0], c[1] + line];
      assert c[0] + (c[1] + line) == (c[0] + c[1]) + line;
    } else if |c| > 2 {
      assert d[0] == c[0] && d[1] == c[1];
      assert d[2..] == c[2..|c| - 1] + [Last(c) + line];
    }
  }

  /** One more line: a marker after the first opens a new, empty template
      (the first marker opens none, so earlier content stays with the first
      group); a line "\n" changes nothing; any other line is appended to the
      last template. */
  lemma TemplatesStep(p: seq<string>, line: string)
    ensures IsMarker(line) ==>
      Templates(p + [line]) == if Names(p) == [] then Templates(p) else Templates(p) + [""]
    ensures !IsMarker(line) && line == BLANK ==> Templates(p + [line]) == Templates(p)
    ensures !IsMarker(line) && line != BLANK ==>
      Templates(p + [line]) == AllButLast(Templates(p)) + [Last(Templates(p)) + line]
  {
    ChunksSnoc(p, line);
    var c := Chunks(p);
    if IsMarker(line) {
      GlueFirstOpen(c);
    } else if line != BLANK {
      GlueFirstAppend(c, line);
    }
  }

  /** One more line keeps every template but the last one. */
  lemma TemplatesGrow(p: seq<string>, line: string)
    ensures |Templates(p)| <= |Templates(p + [line])|
    ensures AllButLast(Templates(p)) == Templates(p + [line])[..|Templates(p)| - 1]
  {
    var t := Templates(p);
    TemplatesStep(p, line);
    if IsMarker(line) && Names(p) != [] {
      assert (t + [""])[..|t| - 1] == AllButLast(t);
    } else if !IsMarker(line) && line != BLANK {
      assert (AllButLast(t) + [Last(t) + line])[..|t| - 1] == AllButLast(t);
    }
  }

  /** Once a template is followed by another, it no longer changes: all but
      the last template of a prefix are the leading templates of the whole file. */
  lemma {:induction false} TemplatesPrefix(lines: seq<string>, j: nat)
    requires j <= |lines|
    ensures |Templates(lines[..j])| <= |Templates(lines)|
    ensures AllButLast(Templates(lines[..j])) == Templates(lines)[..|Templates(lines[..j])| - 1]
    decreases |lines| - j
  {
    if j < |lines| {
      var t := Templates(lines[..j]);
      var u := Templates(lines[..j + 1]);
      var w := Templates(lines);
      assert |u| <= |w| && AllButLast(u) == w[..|u| - 1] by {
        TemplatesPrefix(lines, j + 1);
      }
      assert |t| <= |u| && AllButLast(t) == u[..|t| - 1] by {
        assert lines[..j + 1] == lines[..j] + [lines[j]];
        TemplatesGrow(lines[..j], lines[j]);
      }
      assert u[..|t| - 1] == AllButLast(u)[..|t| - 1];
    } else {
      assert lines[..j] == lines;
    }
  }

  /** An error on a prefix of the templates is the error of the whole list. */
  lemma {:induction false} FormatAllPrefix(ts: seq<string>, k: nat, db: string)
    requires k <= |ts|
    requires FormatAll(ts[..k], db).Err?
    ensures FormatAll(ts, db) == FormatAll(ts[..k], db)
    decreases |ts|
  {
    if k == |ts| {
      assert ts[..k] == ts;
    } else {
      assert AllButLast(ts)[..k] == ts[..k];
      FormatAllPrefix(AllButLast(ts), k, db);
    }
  }

  /** `FormatAll` succeeds exactly when every template formats, and then
      statement i is template i formatted. */
  lemma {:induction false} FormatAllOk(ts: seq<string>, db: string)
    ensures FormatAll(ts, db).Ok? <==> forall i :: 0 <= i < |ts| ==> Format(ts[i], db).Ok?
    ensures FormatAll(ts, db).Ok? ==>
      forall i :: 0 <= i < |ts| ==> Format(ts[i], db) == Ok(FormatAll(ts, db).value[i])
    decreases |ts|
  {
    if ts != [] {
      var front := AllButLast(ts);
      FormatAllOk(front, db);
      assert forall i :: 0 <= i < |front| ==> front[i] == ts[i];
    }
  }

  // ---------------------------------------------------------------------
  // What the reader returns
  // ---------------------------------------------------------------------

  /** The read succeeds exactly when every template has four `%s` and no
      other conversion. */
  lemma ResolveOkIff(lines: seq<string>, db: string)
    ensures Resolve(lines, db).Ok? <==>
      forall i :: 0 <= i < |Templates(lines)| ==> Conversions(Templates(lines)[i]) == Some(ARITY)
  {
    var ts := Templates(lines);
    FormatAllOk(ts, db);
    forall i | 0 <= i < |ts|
      ensures Format(ts[i], db).Ok? <==> Conversions(ts[i]) == Some(ARITY)
    {
      FormatCharacterized(ts[i], db);
    }
  }

  /** A successful read has one name per marker in file order and as many
      statements as templates (one per marker, or one when there is no
      marker), and statement i is template i with each `%s` replaced by `db`. */
  lemma ResolveOkValue(lines: seq<string>, db: string)
    requires Resolve(lines, db).Ok?
    ensures
      var ev := Resolve(lines, db).value;
      var ts := Templates(lines);
      && ev.names == Names(lines)
      && |ev.statements| == |ts|
      && (Names(lines) != [] ==> |ev.statements| == |ev.names|)
      && (forall i :: 0 <= i < |ts| ==> Conversions(ts[i]) == Some(ARITY))
      && forall i :: 0 <= i < |ts| ==> ev.statements[i] == Filled(Pieces(ts[i]), db)
  {
    var ts := Templates(lines);
    FormatAllOk(ts, db);
    forall i | 0 <= i < |ts|
      ensures Format(ts[i], db).Ok? <==> Conversions(ts[i]) == Some(ARITY)
      ensures Conversions(ts[i]) == Some(ARITY) ==> Format(ts[i], db) == Ok(Filled(Pieces(ts[i]), db))
    {
      FormatCharacterized(ts[i], db);
    }
  }

  /** An empty file raises: `'' % (db, db, db, db)` fails. */
  lemma EmptyFileFails(db: string)
    ensures Resolve([], db) == Err(NotAllConverted)
  {
    assert Templates([]) == [""];
    assert AllButLast([""]) == [] && Last([""]) == "";
    assert FormatAll([], db) == Ok([]);
    assert Format("", db) == Err(NotAllConverted);
  }

  // ---------------------------------------------------------------------
  // Names
  // ---------------------------------------------------------------------

  function MarkerLine(name: string): string
  {
    MARKER + name + "\n"
  }

  /** A marker line written with its newline gives back its name. */
  lemma NameOfMarkerLine(name: string)
    ensures IsMarker(MarkerLine(name)) && Name(MarkerLine(name)) == name
  {
    assert MarkerLine(name)[..2] == MARKER;
    assert MarkerLine(name)[2..|MarkerLine(name)| - 1] == name;
  }

  /** The name drops the last character of the marker line whatever it is, so
      a last line without a newline loses a real character of its name. */
  lemma NameDropsLastCharacter(line: string)
    requires IsMarker(line) && |line| >= 3
    ensures MARKER + Name(line) + [Last(line)] == line
    ensures |Name(line)| == |line| - 3
  {
    assert line == line[..2] + line[2..|line| - 1] + [Last(line)];
  }

  /** One name per marker line, in file order. */
  lemma NamesSnoc(p: seq<string>, line: string)
    ensures Names(p + [line]) == Names(p) + NamesOf(line)
  {
    assert AllButLast(p + [line]) == p && Last(p + [line]) == line;
  }

  /** Associativity of `+`, named so that `NamesAppend` can cite it as one step. */
  lemma AppendAssoc<T>(x: seq<T>, y: seq<T>, z: seq<T>)
    ensures (x + y) + z == x + (y + z)
  {
  }

  lemma {:induction false} NamesAppend(a: seq<string>, b: seq<string>)
    ensures Names(a + b) == Names(a) + Names(b)
    decreases |b|
  {
    if b == [] {
      assert a + b == a;
    } else {
      var front, line := AllButLast(b), Last(b);
      assert b == front + [line];
      assert a + b == (a + front) + [line];
      NamesAppend(a, front);
      NamesSnoc(a + front, line);
      NamesSnoc(front, line);
      AppendAssoc(Names(a), Names(front), NamesOf(line));
    }
  }

  // ---------------------------------------------------------------------
  // Parsing a file written group by group
  // ---------------------------------------------------------------------

  /** Two chunk lists read one after the other: the last chunk of the first
      continues into the first chunk of the second. */
  function Glue(c: seq<string>, d: seq<string>): seq<string>
    requires |c| > 0 && |d| > 0
  {
    AllButLast(c) + [Last(c) + d[0]] + d[1..]
  }

  lemma ExtendGlue(c: seq<string>, d: seq<string>, line: string)
    requires |c| > 0 && |d| > 0
    ensures Extend(Glue(c, d), line) == Glue(c, Extend(d, line))
  {
    if !IsMarker(line) && line != BLANK {
      if |d| == 1 {
        assert (Last(c) + d[0]) + line == Last(c) + (d[0] + line);
      } else {
        assert AllButLast(Glue(c, d)) == AllButLast(c) + [Last(c) + d[0]] + AllButLast(d)[1..];
      }
    }
  }

  lemma {:induction false} ChunksAppend(a: seq<string>, b: seq<string>)
    ensures Chunks(a + b) == Glue(Chunks(a), Chunks(b))
    decreases |b|
  {
    var c := Chunks(a);
    if b == [] {
      assert a + b == a;
      assert Last(c) + "" == Last(c);
      assert Glue(c, [""]) == c;
    } else {
      var front, line := AllButLast(b), Last(b);
      assert b == front + [line];
      assert a + b == (a + front) + [line];
      ChunksAppend(a, front);
      ChunksSnoc(a + front, line);
      ChunksSnoc(front, line);
      ExtendGlue(c, Chunks(front), line);
    }
  }

  predicate NoMarkers(ls: seq<string>)
  {
    forall i :: 0 <= i < |ls| ==> !IsMarker(ls[i])
  }

  /** The verbatim concatenation, newlines kept, of the lines other than "\n". */
  function Body(ls: seq<string>): string
  {
    if ls == [] then "" else Body(AllButLast(ls)) + (if Last(ls) == BLANK then "" else Last(ls))
  }

  lemma {:induction false} ChunksNoMarkers(ls: seq<string>)
    requires NoMarkers(ls)
    ensures Names(ls) == [] && Chunks(ls) == [Body(ls)]
    decreases |ls|
  {
    if ls != [] {
      ChunksNoMarkers(AllButLast(ls));
      assert !IsMarker(Last(ls));
      assert Body(AllButLast(ls)) + "" == Body(AllButLast(ls));
    }
  }

  /** A group as written in an event file: its name and its template lines. */
  datatype Group = Group(name: string, body: seq<string>)

  /** The lines of an event file holding `groups`, each a marker line and its body. */
  function Render(groups: seq<Group>): seq<string>
  {
    if groups == [] then [] else [MarkerLine(groups[0].name)] + groups[0].body + Render(groups[1..])
  }

  function GroupNames(groups: seq<Group>): seq<string>
  {
    if groups == [] then [] else [groups[0].name] + GroupNames(groups[1..])
  }

  function Bodies(groups: seq<Group>): seq<string>
  {
    if groups == [] then [] else [Body(groups[0].body)] + Bodies(groups[1..])
  }

  predicate WellSeparated(groups: seq<Group>)
  {
    forall i :: 0 <= i < |groups| ==> NoMarkers(groups[i].body)
  }

  /** A marker line alone opens one group with an empty template. */
  lemma ParseMarkerLine(name: string)
    ensures Names([MarkerLine(name)]) == [name]
    ensures Chunks([MarkerLine(name)]) == ["", ""]
  {
    NameOfMarkerLine(name);
    ChunksSnoc([], MarkerLine(name));
    assert [] + [MarkerLine(name)] == [MarkerLine(name)];
  }

  lemma ParseGroup(g: Group)
    requires NoMarkers(g.body)
    ensures Names([MarkerLine(g.name)] + g.body) == [g.name]
    ensures Chunks([MarkerLine(g.name)] + g.body) == ["", Body(g.body)]
  {
    var m := [MarkerLine(g.name)];
    var body := Body(g.body);
    ParseMarkerLine(g.name);
    ChunksNoMarkers(g.body);
    assert Names(m + g.body) == [g.name] by {
      NamesAppend(m, g.body);
    }
    assert Chunks(m + g.body) == ["", body] by {
      ChunksAppend(m, g.body);
      GlueOpen(body);
    }
  }

  lemma GlueOpen(b: string)
    ensures Glue(["", ""], [b]) == ["", b]
  {
    assert AllButLast(["", ""]) == [""] && Last(["", ""]) == "";
    assert "" + b == b;
  }

  lemma GlueGroup(b: string, rest: seq<string>)
    ensures Glue(["", b], [""] + rest) == [""] + ([b] + rest)
  {
    assert AllButLast(["", b]) == [""];
    assert ([""] + rest)[1..] == rest;
    assert b + "" == b;
  }

  lemma {:induction false} ParseRender(groups: seq<Group>)
    requires WellSeparated(groups)
    ensures Names(Render(groups)) == GroupNames(groups)
    ensures Chunks(Render(groups)) == [""] + Bodies(groups)
    decreases |groups|
  {
    if groups != [] {
      var g := groups[0];
      var head := [MarkerLine(g.name)] + g.body;
      var tail := Render(groups[1..]);
      assert Render(groups) == head + tail;
      ParseRender(groups[1..]);
      ParseGroup(g);
      NamesAppend(head, tail);
      assert Names(head + tail) == [g.name] + GroupNames(groups[1..]);
      ChunksAppend(head, tail);
      assert Chunks(head + tail) == Glue(["", Body(g.body)], [""] + Bodies(groups[1..]));
      GlueGroup(Body(g.body), Bodies(groups[1..]));
    }
  }

  /** Reading a file made of some leading lines and then groups, none of whose
      template lines is a marker: the names are the groups' names in order,
      template i is group i's lines concatenated verbatim with the lines "\n"
      left out, and the leading lines are prefixed to the first template. */
  lemma ParseEventFile(pre: seq<string>, groups: seq<Group>)
    requires NoMarkers(pre) && WellSeparated(groups)
    ensures Names(pre + Render(groups)) == GroupNames(groups)
    ensures Templates(pre + Render(groups)) ==
      if groups == [] then [Body(pre)]
      else [Body(pre) + Body(groups[0].body)] + Bodies(groups[1..])
  {
    var r := Render(groups);
    assert Names(pre + r) == GroupNames(groups) by {
      ChunksNoMarkers(pre);
      ParseRender(groups);
      NamesAppend(pre, r);
    }
    assert Chunks(pre + r) == Glue([Body(pre)], [""] + Bodies(groups)) by {
      ChunksNoMarkers(pre);
      ParseRender(groups);
      ChunksAppend(pre, r);
    }
    GlueLead(Body(pre), Bodies(groups));
    if groups != [] {
      assert Bodies(groups) == [Body(groups[0].body)] + Bodies(groups[1..]);
    }
  }

  lemma GlueLead(p: string, bs: seq<string>)
    ensures GlueFirst(Glue([p], [""] + bs)) == if bs == [] then [p] else [p + bs[0]] + bs[1..]
  {
    assert Glue([p], [""] + bs) == [p] + bs by {
      assert AllButLast([p]) == [] && Last([p]) == p;
      assert ([""] + bs)[0] == "" && ([""] + bs)[1..] == bs;
      assert p + "" == p;
    }
    if bs != [] {
      assert ([p] + bs)[2..] == bs[1..];
    }
  }

  /** A file without markers yields no names and one statement: the whole
      file's content, substituted. */
  lemma NoMarkersResolve(lines: seq<string>, db: string)
    requires NoMarkers(lines)
    ensures Resolve(lines, db) ==
      match Format(Body(lines), db)
      case Ok(s) => Ok(Events([], [s]))
      case Err(e) => Err(e)
  {
    ChunksNoMarkers(lines);
    assert Templates(lines) == [Body(lines)];
    FormatAllSingle(Body(lines), db);
  }

  lemma FormatAllSingle(t: string, db: string)
    ensures FormatAll([t], db) ==
      match Format(t, db)
      case Ok(s) => Ok([s])
      case Err(e) => Err(e)
  {
    assert AllButLast([t]) == [] && Last([t]) == t;
    assert FormatAll([], db) == Ok([]);
    match Format(t, db)
    case Ok(s) => assert [] + [s] == [s];
    case Err(e) =>
  }

  /** Two markers in a row, after the first marker, leave an empty template
      between them, and an empty template raises. */
  lemma ConsecutiveMarkersFail(a: seq<string>, m1: string, m2: string, b: seq<string>, db: string)
    requires Names(a) != [] && IsMarker(m1) && IsMarker(m2)
    ensures Resolve(a + [m1, m2] + b, db).Err?
  {
    var lines := a + [m1, m2] + b;
    EmptyTemplateBetween(a, m1, m2, b);
    assert Conversions(Templates(lines)[|Names(a)|]) == Some(0);
    ResolveOkIff(lines, db);
  }

  lemma EmptyTemplateBetween(a: seq<string>, m1: string, m2: string, b: seq<string>)
    requires Names(a) != [] && IsMarker(m1) && IsMarker(m2)
    ensures |Names(a)| < |Templates(a + [m1, m2] + b)|
    ensures Templates(a + [m1, m2] + b)[|Names(a)|] == ""
  {
    TwoMarkers(a, m1, m2);
    EmptyChunkKept(a + [m1, m2], b, |Chunks(a)|);
  }

  lemma TwoMarkers(a: seq<string>, m1: string, m2: string)
    requires IsMarker(m1) && IsMarker(m2)
    ensures Chunks(a + [m1, m2]) == Chunks(a) + ["", ""]
  {
    ChunksSnoc(a, m1);
    ChunksSnoc(a + [m1], m2);
    assert a + [m1] + [m2] == a + [m1, m2];
  }

  /** A chunk that is followed by another stays as it is, whatever comes after. */
  lemma EmptyChunkKept(x: seq<string>, b: seq<string>, j: nat)
    requires 2 <= j && j + 1 < |Chunks(x)| && Chunks(x)[j] == ""
    ensures j - 1 < |Templates(x + b)| && Templates(x + b)[j - 1] == ""
  {
    ChunksAppend(x, b);
    GlueKeeps(Chunks(x), Chunks(b), j);
    GlueFirstAt(Chunks(x + b), j);
  }

  lemma GlueKeeps(c: seq<string>, d: seq<string>, j: nat)
    requires |d| > 0 && j + 1 < |c|
    ensures |Glue(c, d)| >= |c| && Glue(c, d)[j] == c[j]
  {
  }

  lemma GlueFirstAt(c: seq<string>, j: nat)
    requires 2 <= j < |c|
    ensures GlueFirst(c)[j - 1] == c[j]
  {
  }
}
