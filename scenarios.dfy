/**
 * Small documents worked through line by line with the per-line lemmas, for
 * any plain names and values: sections, relative and empty headers, comments
 * across a blank line, repeated keys, the shorthand after a header, malformed
 * lines, booleans, and writing a loaded store back out.
 */
module IniScenarios {
  import opened Wrappers
  import opened JavaText
  import opened IniStore
  import opened IniLoader

  /** A plain name or value: non-empty, no char up to U+0020, none of `;`, `[`, `]`, `=`, `.`. */
  predicate Plain(s: string) {
    s != [] &&
    forall i :: 0 <= i < |s| ==>
      !IsSpace(s[i]) && s[i] != ';' && s[i] != '[' && s[i] != ']' && s[i] != '=' && s[i] != '.'
  }

  lemma PlainLacks(s: string)
    requires Plain(s)
    ensures ';' !in s && '[' !in s && ']' !in s && '=' !in s && '.' !in s
    ensures !IsSpace(s[0]) && !IsSpace(s[|s| - 1]) && s[0] != '.'
  {
  }

  lemma NoSpaceTrim(s: string)
    requires s != [] && !IsSpace(s[0]) && !IsSpace(s[|s| - 1])
    ensures Trim(s) == s
  {
    assert Lead(s) == 0;
    assert s[0..] == s;
    assert s[..|s|] == s;
  }

  /** `[a]` sets the path `a.`. */
  lemma PlainHeader(p: Parser, d: Doc, a: string)
    requires Plain(a)
    ensures Step(p, d, "[" + a + "]") == Next(Parser(a + ".", None, []), d)
  {
    assert "[" + a + "]" == "[" + a + "]" + "";
    PlainLacks(a);
    SectionLine(p, d, "[" + a + "]", a, "");
  }

  /** `[]` returns to the root path. */
  lemma EmptyHeader(p: Parser, d: Doc)
    ensures Step(p, d, "[]") == Next(Parser("", None, []), d)
  {
    assert "[]" == "[" + "" + "]" + "";
    SectionLine(p, d, "[]", "", "");
  }

  /** `[.b]` appends `.b.` to the current path, leading dot included. */
  lemma PlainRelativeHeader(p: Parser, d: Doc, b: string)
    requires Plain(b)
    ensures Step(p, d, "[." + b + "]") == Next(Parser(p.path + "." + b + ".", None, []), d)
  {
    var inner := "." + b;
    var line := "[." + b + "]";
    assert line == "[" + inner + "]" + "";
    PlainLacks(b);
    assert ';' !in line;
    assert '[' !in inner && ']' !in inner;
    RelativeCompose(p.path, b);
    SectionLine(p, d, line, inner, "");
  }

  lemma RelativeCompose(path: string, b: string)
    requires Plain(b)
    ensures ComposePath(path, "." + b) == path + "." + b + "."
  {
    var inner := "." + b;
    assert inner[|inner| - 1] == b[|b| - 1] != '.';
    var np := inner + ".";
    assert WithDot(inner) == np;
    assert StartsWith(np, '.');
    assert path + np == path + "." + b + ".";
  }

  /** `;c` queues `;c` itself as a pending comment. */
  lemma PlainComment(p: Parser, d: Doc, c: string)
    requires Plain(c)
    ensures Step(p, d, ";" + c) == Next(p.(pending := p.pending + [";" + c]), d)
  {
    var line := ";" + c;
    assert line[|line| - 1] == c[|c| - 1];
    NoSpaceTrim(line);
    CommentLine(p, d, line);
  }

  /** `x=v` stores `v` under the path followed by `x`. */
  lemma PlainAssignment(p: Parser, d: Doc, x: string, v: string)
    requires Plain(x) && Plain(v)
    ensures Step(p, d, x + "=" + v) ==
      Next(Parser(p.path, Some(p.path + x), []), Append(d, p.path + x, Record(v, Attached(p.pending))))
  {
    var line := x + "=" + v;
    assert line[0] == x[0] && line[|line| - 1] == v[|v| - 1];
    PlainLacks(x);
    PlainLacks(v);
    NoSpaceTrim(line);
    assert x != ".";
    AssignmentLine(p, d, line, x, v);
  }

  /**
   * `[a]`, `x=v`, `[.b]`, `.=w`: the header on line 3 clears the last key, so
   * the shorthand on line 4 is refused once `a.x` has been stored.
   */
  lemma ShorthandAfterHeaderFails(d: Doc, a: string, x: string, v: string, b: string, w: string)
    requires Plain(a) && Plain(x) && Plain(v) && Plain(b) && Plain(w)
    ensures LoadLines(d, ["[" + a + "]", x + "=" + v, "[." + b + "]", ".=" + w]) ==
      Failed(Append(d, a + "." + x, Record(v, None)), LoadError(ShorthandWithoutKey, 4))
  {
    var L := ["[" + a + "]", x + "=" + v, "[." + b + "]", ".=" + w];
    var p1 := Parser(a + ".", None, []);
    PlainHeader(Start(), d, a);
    RunNext(Start(), d, L, 1, p1, d);
    var p2 := Parser(a + ".", Some(a + "." + x), []);
    var d2 := Append(d, a + "." + x, Record(v, None));
    PlainAssignment(p1, d, x, v);
    RunNext(p1, d, L[1..], 2, p2, d2);
    var p3 := Parser(a + "." + "." + b + ".", None, []);
    PlainRelativeHeader(p2, d2, b);
    RunNext(p2, d2, L[2..], 3, p3, d2);
    var l4 := ".=" + w;
    assert l4[|l4| - 1] == w[|w| - 1];
    NoSpaceTrim(l4);
    ShorthandLine(p3, d2, l4, w);
    RunFail(p3, d2, L[3..], 4, ShorthandWithoutKey);
  }

  /** `[a]`, `[.b]`, `x=v`: the key is `a..b.x`, the relative header keeping its leading dot. */
  lemma RelativeHeaderKeepsDot(d: Doc, a: string, b: string, x: string, v: string)
    requires Plain(a) && Plain(b) && Plain(x) && Plain(v)
    ensures LoadLines(d, ["[" + a + "]", "[." + b + "]", x + "=" + v]) ==
      Loaded(Parser(a + "." + "." + b + ".", Some(a + "." + "." + b + "." + x), []),
             Append(d, a + "." + "." + b + "." + x, Record(v, None)))
  {
    var L := ["[" + a + "]", "[." + b + "]", x + "=" + v];
    var p1 := Parser(a + ".", None, []);
    PlainHeader(Start(), d, a);
    RunNext(Start(), d, L, 1, p1, d);
    var path := a + "." + "." + b + ".";
    var p2 := Parser(path, None, []);
    PlainRelativeHeader(p1, d, b);
    RunNext(p1, d, L[1..], 2, p2, d);
    PlainAssignment(p2, d, x, v);
    RunNext(p2, d, L[2..], 3, Parser(path, Some(path + x), []), Append(d, path + x, Record(v, None)));
    assert L[2..][1..] == [];
  }

  /** `[a]`, `[]`, `x=v`: the empty header returns to the root, so the key is just `x`. */
  lemma EmptyHeaderResetsRoot(d: Doc, a: string, x: string, v: string)
    requires Plain(a) && Plain(x) && Plain(v)
    ensures LoadLines(d, ["[" + a + "]", "[]", x + "=" + v]) ==
      Loaded(Parser("", Some(x), []), Append(d, x, Record(v, None)))
  {
    var L := ["[" + a + "]", "[]", x + "=" + v];
    var p1 := Parser(a + ".", None, []);
    PlainHeader(Start(), d, a);
    RunNext(Start(), d, L, 1, p1, d);
    EmptyHeader(p1, d);
    var p2 := Parser("", None, []);
    assert L[1..][0] == "[]";
    RunNext(p1, d, L[1..], 2, p2, d);
    PlainAssignment(p2, d, x, v);
    assert "" + x == x;
    assert L[1..][1..] == [x + "=" + v];
    RunNext(p2, d, [x + "=" + v], 3, Parser("", Some(x), []), Append(d, x, Record(v, None)));
    assert [x + "=" + v][1..] == [];
  }

  /**
   * `;c1`, `;c2`, a blank line, `x=v`: both comments, each with its `;`, go with
   * the one record; the blank line does not break the association.
   */
  lemma CommentsSurviveBlankLine(d: Doc, c1: string, c2: string, x: string, v: string)
    requires Plain(c1) && Plain(c2) && Plain(x) && Plain(v)
    ensures LoadLines(d, [";" + c1, ";" + c2, "  ", x + "=" + v]) ==
      Loaded(Parser("", Some(x), []), Append(d, x, Record(v, Some([";" + c1, ";" + c2]))))
  {
    var L := [";" + c1, ";" + c2, "  ", x + "=" + v];
    PlainComment(Start(), d, c1);
    var p1 := Parser("", None, [L[0]]);
    RunNext(Start(), d, L, 1, p1, d);
    PlainComment(p1, d, c2);
    var p2 := Parser("", None, [L[0], L[1]]);
    RunNext(p1, d, L[1..], 2, p2, d);
    BlankLine(p2, d, L[2]);
    RunNext(p2, d, L[2..], 3, p2, d);
    PlainAssignment(p2, d, x, v);
    assert "" + x == x;
    RunNext(p2, d, L[3..], 4, Parser("", Some(x), []), Append(d, x, Record(v, Some([L[0], L[1]]))));
    assert L[3..][1..] == [];
  }

  /** `x=v1`, `x=v2`: both records are kept in order, and `getLast` gives `v2`. */
  lemma DuplicateKeyKeepsBoth(x: string, v1: string, v2: string)
    requires Plain(x) && Plain(v1) && Plain(v2)
    ensures var r := LoadLines(Empty(), [x + "=" + v1, x + "=" + v2]);
      r.Loaded? && ListOf(r.d, x) == [Record(v1, None), Record(v2, None)] &&
      ContainsKey(r.d, x) && GetLast(r.d, x) == Some(v2)
  {
    var d1 := Append(Empty(), x, Record(v1, None));
    var d2 := Append(d1, x, Record(v2, None));
    TwoAssignmentsLoad(Empty(), x, v1, v2);
    AppendedIsLast(d1, x, Record(v2, None));
    assert ListOf(d1, x) == [Record(v1, None)];
    assert ListOf(d2, x) == [Record(v1, None)] + [Record(v2, None)];
  }

  /** The load behind `DuplicateKeyKeepsBoth`: two appends under the same key. */
  lemma TwoAssignmentsLoad(d: Doc, x: string, v1: string, v2: string)
    requires Plain(x) && Plain(v1) && Plain(v2)
    ensures LoadLines(d, [x + "=" + v1, x + "=" + v2]) ==
      Loaded(Parser("", Some(x), []), Append(Append(d, x, Record(v1, None)), x, Record(v2, None)))
  {
    var L := [x + "=" + v1, x + "=" + v2];
    var p1 := Parser("", Some(x), []);
    var d1 := Append(d, x, Record(v1, None));
    var d2 := Append(d1, x, Record(v2, None));
    assert "" + x == x;
    PlainAssignment(Start(), d, x, v1);
    RunNext(Start(), d, L, 1, p1, d1);
    PlainAssignment(p1, d1, x, v2);
    RunNext(p1, d1, L[1..], 2, p1, d2);
    assert L[1..][1..] == [];
  }

  /** `[a` is refused on line 1, and a line of plain text after `x=v` is refused on line 2. */
  lemma MalformedLinesReportTheirLine(d: Doc, a: string, x: string, v: string, t: string)
    requires Plain(a) && Plain(x) && Plain(v) && Plain(t)
    ensures LoadLines(d, ["[" + a]) == Failed(d, LoadError(UnclosedHeader, 1))
    ensures LoadLines(d, [x + "=" + v, t]) ==
      Failed(Append(d, x, Record(v, None)), LoadError(NoAssignment, 2))
  {
    var h := "[" + a;
    assert h[|h| - 1] == a[|a| - 1];
    PlainLacks(a);
    NoSpaceTrim(h);
    HeaderLine(Start(), d, h);
    RunFail(Start(), d, [h], 1, UnclosedHeader);
    var M := [x + "=" + v, t];
    assert "" + x == x;
    PlainAssignment(Start(), d, x, v);
    var p1 := Parser("", Some(x), []);
    var d1 := Append(d, x, Record(v, None));
    RunNext(Start(), d, M, 1, p1, d1);
    PlainLacks(t);
    NoSpaceTrim(t);
    UnrecognisedLine(p1, d1, t);
    RunFail(p1, d1, M[1..], 2, NoAssignment);
  }

  /** `getBoolean` matches `TRUE` regardless of case and refuses `yes`. */
  lemma BooleanExamples(d: Doc, k: string)
    ensures GetBoolean(Append(d, k, Record("TRUE", None)), k) == Ok(true)
    ensures GetBoolean(Append(d, k, Record("yes", None)), k) == Err(NotBoolean)
  {
    AppendedIsLast(d, k, Record("TRUE", None));
    AppendedIsLast(d, k, Record("yes", None));
    assert CaseVariant("TRUE", "true");
    assert !CaseVariant("yes", "true") && !CaseVariant("yes", "false");
  }

  /**
   * A record loaded from `;c` then `k=v` keeps the comment as `;c`, and is
   * written back as `;;c` then `k=v`: the text does not round-trip.
   */
  lemma CommentIsDoubledOnOutput(k: string, v: string, c: string)
    ensures Emit(Doc([k], map[k := [Record(v, Some([c]))]])).Done?
    ensures Join(Emit(Doc([k], map[k := [Record(v, Some([c]))]])).frags) ==
      ";" + c + "\r\n" + k + "=" + v + "\r\n"
  {
    var d := Doc([k], map[k := [Record(v, Some([c]))]]);
    assert [c][..0] == [];
    assert CommentFrags([c]) == [";", c, "\r\n"];
    assert [Record(v, Some([c]))][..0] == [];
    assert [k][..0] == [];
    var r := Record(v, Some([c]));
    assert ListOf(d, k) == [r];
    ThenDoneEmpty(RecordFrags(k, r));
    assert RecordsFrags(k, [r]) == Then(RecordsFrags(k, []), RecordFrags(k, r));
    ThenDoneEmpty(RecordsFrags(k, [r]));
    assert KeysFrags(d, [k]) == Then(KeysFrags(d, []), RecordsFrags(k, [r]));
    assert Emit(d) == RecordFrags(k, r);
    RecordText(k, v, [c]);
    assert [";", c, "\r\n"][..2] == [";", c];
    assert [";", c][..1] == [";"];
    assert [";"][..0] == [];
    calc {
      Join([";", c, "\r\n"]);
      Join([";", c]) + "\r\n";
      (Join([";"]) + c) + "\r\n";
      { assert Join([";"]) == [] + ";" == ";"; }
      ";" + c + "\r\n";
    }
  }

  /** Loading the single line `x=v` leaves a store whose serialisation throws. */
  lemma UncommentedLoadCannotBeWritten(x: string, v: string)
    requires Plain(x) && Plain(v)
    ensures LoadLines(Empty(), [x + "=" + v]).Loaded?
    ensures Emit(LoadLines(Empty(), [x + "=" + v]).d).Crashed?
  {
    var L := [x + "=" + v];
    assert "" + x == x;
    PlainAssignment(Start(), Empty(), x, v);
    RunNext(Start(), Empty(), L, 1, Parser("", Some(x), []), Append(Empty(), x, Record(v, None)));
    assert L[1..] == [];
    UncommentedAssignBreaksEmit(Start(), Empty(), x, v);
  }
}
