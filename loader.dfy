/**
 * The line-by-line loader, `SFIni.load(Reader)`, as a pure step function on the
 * loop's locals and the store, and its fold over the lines of one load.
 */
module IniLoader {
  import opened Wrappers
  import opened JavaText
  import opened IniStore

  /** The loop's locals other than the line counter: `path`, `seqKey`, `seqComments`. */
  datatype Parser = Parser(path: string, lastKey: Option<string>, pending: seq<string>)

  /** The locals at the start of every `load` call. */
  function Start(): Parser {
    Parser("", None, [])
  }

  /**
   * Which `IllegalArgumentException` a line raises. The first three carry the
   * message "Malformed section header", the last two "Couldn't find a section,
   * comment, or key-value assigment".
   */
  datatype ErrorKind = SemicolonInHeader | UnclosedHeader | BracketInHeader | ShorthandWithoutKey | NoAssignment

  /** The exception and the 1-based number of the line that raised it. */
  datatype LoadError = LoadError(kind: ErrorKind, line: nat)

  datatype StepResult = Next(p: Parser, d: Doc) | Fail(kind: ErrorKind)

  /** The header text with a `.` added unless it is empty or already ends in one. */
  function WithDot(inner: string): (r: string)
    ensures r == [] <==> inner == []
    ensures r != [] ==> EndsWith(r, '.')
    ensures EndsWith(inner, '.') ==> r == inner
    ensures inner != [] && !EndsWith(inner, '.') ==> r == inner + "."
  {
    if inner == [] || EndsWith(inner, '.') then inner else inner + "."
  }

  /**
   * The new section path: a `.`-prefixed header is relative and is appended,
   * dot included, to the current path; any other header replaces the path.
   */
  function ComposePath(path: string, inner: string): (r: string)
    ensures r == [] <==> inner == []
    ensures r == [] || EndsWith(r, '.')
    ensures StartsWith(inner, '.') ==> r == path + WithDot(inner)
    ensures !StartsWith(inner, '.') ==> r == WithDot(inner)
  {
    var np := WithDot(inner);
    if StartsWith(np, '.') then path + np else np
  }

  /** A header not starting with `.` sets the path regardless of the current one. */
  lemma AbsolutePath(path: string, other: string, inner: string)
    requires !StartsWith(inner, '.')
    ensures ComposePath(path, inner) == ComposePath(other, inner) == WithDot(inner)
  {
  }

  /**
   * One pass of the `while (true)` loop on one line. The checks come in the
   * same order as in the source: comment (trimmed), blank (trimmed), header
   * (raw line), assignment (raw line contains `=`), error.
   */
  function Step(p: Parser, d: Doc, line: string): (r: StepResult)
    ensures r.Fail? ==> Trim(line) != [] && !StartsWith(Trim(line), ';')
    ensures r.Next? && (Trim(line) == [] || StartsWith(Trim(line), ';') || StartsWith(line, '[')) ==> r.d == d
  {
    var trunc := Trim(line);
    if StartsWith(trunc, ';') then
      Next(p.(pending := p.pending + [trunc]), d)
    else if trunc == [] then
      Next(p, d)
    else if StartsWith(line, '[') then
      HeaderStep(p, d, line, trunc)
    else if '=' in line then
      TrimKeeps(line, '=');
      AssignStep(p, d, trunc)
    else
      Fail(NoAssignment)
  }

  /**
   * The header branch: `seqKey` and `seqComments` are reset before the header
   * is validated, then the raw line is checked for `;`, the trimmed line for
   * its closing `]`, and the inner text for brackets.
   */
  function HeaderStep(p: Parser, d: Doc, line: string, trunc: string): (r: StepResult)
    requires StartsWith(trunc, '[')
    ensures r.Fail? <==>
      ';' in line || !EndsWith(trunc, ']') || '[' in trunc[1..|trunc| - 1] || ']' in trunc[1..|trunc| - 1]
    ensures r.Next? ==>
      r.d == d && r.p.lastKey == None && r.p.pending == [] && r.p.path == ComposePath(p.path, trunc[1..|trunc| - 1])
  {
    var reset := p.(lastKey := None, pending := []);
    if ';' in line then Fail(SemicolonInHeader)
    else if EndsWith(trunc, ']') then
      var inner := trunc[1..|trunc| - 1];
      if '[' in inner || ']' in inner then Fail(BracketInHeader)
      else Next(reset.(path := ComposePath(reset.path, inner)), d)
    else Fail(UnclosedHeader)
  }

  /**
   * The assignment branch, split at the first `=` of the trimmed line: `.=`
   * reuses the last key, anything else is a new key under the current path.
   */
  function AssignStep(p: Parser, d: Doc, trunc: string): (r: StepResult)
    requires '=' in trunc
    ensures r.Fail? <==> IndexOf(trunc, '=') == 1 && trunc[0] == '.' && p.lastKey == None
    ensures r.Fail? ==> r.kind == ShorthandWithoutKey
    ensures r.Next? ==>
      (r.p.path == p.path && r.p.pending == [] && r.p.lastKey.Some? &&
       ListOf(r.d, r.p.lastKey.value) ==
         ListOf(d, r.p.lastKey.value) + [Record(trunc[IndexOf(trunc, '=') + 1..], Attached(p.pending))])
  {
    var eq := IndexOf(trunc, '=');
    var value := trunc[eq + 1..];
    if eq == 1 && trunc[0] == '.' then
      match p.lastKey
      case None => Fail(ShorthandWithoutKey)
      case Some(k) => Assign(p, d, k, value)
    else
      var key := p.path + trunc[..eq];
      Assign(p.(lastKey := Some(key)), d, key, value)
  }

  /** The comments a new record takes: the pending list, or `null` when none are pending. */
  function Attached(pending: seq<string>): (r: Option<seq<string>>)
    ensures r == None <==> pending == []
    ensures r.Some? ==> r.value == pending
  {
    if pending == [] then None else Some(pending)
  }

  /** Stores `value` under `key` with the pending comments, which are then cleared. */
  function Assign(p: Parser, d: Doc, key: string, value: string): (r: StepResult)
    ensures r.Next? && r.p == p.(pending := [])
    ensures ListOf(r.d, key) == ListOf(d, key) + [Record(value, Attached(p.pending))]
  {
    Next(p.(pending := []), Append(d, key, Record(value, Attached(p.pending))))
  }

  /** What a load leaves behind: the final locals and store, or the store at the failing line. */
  datatype Outcome = Loaded(p: Parser, d: Doc) | Failed(d: Doc, err: LoadError)

  /** The loop over `lines`, the first of which is line number `n`. */
  function Run(p: Parser, d: Doc, lines: seq<string>, n: nat): (o: Outcome)
    ensures o.Failed? ==> n <= o.err.line < n + |lines|
    decreases |lines|
  {
    if lines == [] then Loaded(p, d)
    else match Step(p, d, lines[0])
      case Fail(k) => Failed(d, LoadError(k, n))
      case Next(p', d') => Run(p', d', lines[1..], n + 1)
  }

  /** `load(Reader)` on a store `d`: fresh locals, line counter starting at 1. */
  function LoadLines(d: Doc, lines: seq<string>): (o: Outcome)
    ensures o.Failed? ==> 1 <= o.err.line <= |lines|
  {
    Run(Start(), d, lines, 1)
  }

  // ---------------------------------------------------------------------------
  // One line
  // ---------------------------------------------------------------------------

  /** A comment line queues its trimmed text, `;` included, and changes nothing else. */
  lemma CommentLine(p: Parser, d: Doc, line: string)
    requires StartsWith(Trim(line), ';')
    ensures Step(p, d, line) == Next(p.(pending := p.pending + [Trim(line)]), d)
  {
  }

  /** A line of nothing but chars up to U+0020 changes nothing, pending comments and last key included. */
  lemma BlankLine(p: Parser, d: Doc, line: string)
    requires forall k :: 0 <= k < |line| ==> IsSpace(line[k])
    ensures Step(p, d, line) == Next(p, d)
  {
  }

  /**
   * A raw line starting with `[` never touches the store; when it is accepted
   * it has cleared the last key and the pending comments. It is refused when
   * the raw line holds a `;`, and otherwise when the trimmed line does not end
   * in `]`.
   */
  lemma HeaderLine(p: Parser, d: Doc, line: string)
    requires StartsWith(line, '[')
    ensures Step(p, d, line).Next? ==>
      Step(p, d, line).d == d && Step(p, d, line).p.lastKey == None && Step(p, d, line).p.pending == []
    ensures ';' in line ==> Step(p, d, line) == Fail(SemicolonInHeader)
    ensures ';' !in line && !EndsWith(Trim(line), ']') ==> Step(p, d, line) == Fail(UnclosedHeader)
  {
    assert Trim(line) != [] && Trim(line)[0] == '[';
  }

  lemma TrimBracketed(line: string, inner: string, sp: string)
    requires line == "[" + inner + "]" + sp
    requires forall k :: 0 <= k < |sp| ==> IsSpace(sp[k])
    ensures Trim(line) == "[" + inner + "]"
  {
    var t := "[" + inner + "]";
    assert line[0] == '[';
    assert Lead(line) == 0;
    assert line[0..] == line;
    TrailingSpaces(t, sp);
  }

  lemma {:induction false} TrailingSpaces(t: string, sp: string)
    requires t != [] && !IsSpace(t[|t| - 1])
    requires forall k :: 0 <= k < |sp| ==> IsSpace(sp[k])
    ensures TrailEnd(t + sp) == |t|
    ensures (t + sp)[..|t|] == t
    decreases |sp|
  {
    if sp == [] {
      assert t + sp == t;
    } else {
      var s := t + sp;
      assert s[|s| - 1] == sp[|sp| - 1];
      assert s[..|s| - 1] == t + sp[..|sp| - 1];
      TrailingSpaces(t, sp[..|sp| - 1]);
    }
  }

  /**
   * A well-formed header `[inner]`, optionally followed by spaces, with no `;`
   * and no bracket inside, sets the path from `inner`, clears the last key and
   * the pending comments, and leaves the store alone.
   */
  lemma SectionLine(p: Parser, d: Doc, line: string, inner: string, sp: string)
    requires line == "[" + inner + "]" + sp
    requires forall k :: 0 <= k < |sp| ==> IsSpace(sp[k])
    requires ';' !in line && '[' !in inner && ']' !in inner
    ensures Step(p, d, line) == Next(Parser(ComposePath(p.path, inner), None, []), d)
  {
    TrimBracketed(line, inner, sp);
    var t := Trim(line);
    assert t[1..|t| - 1] == inner;
  }

  /** A header whose inner text holds `[` or `]` is refused. */
  lemma NestedBracketLine(p: Parser, d: Doc, line: string, inner: string, sp: string)
    requires line == "[" + inner + "]" + sp
    requires forall k :: 0 <= k < |sp| ==> IsSpace(sp[k])
    requires ';' !in line && ('[' in inner || ']' in inner)
    ensures Step(p, d, line) == Fail(BracketInHeader)
  {
    TrimBracketed(line, inner, sp);
    var t := Trim(line);
    assert t[1..|t| - 1] == inner;
  }

  lemma SplitAtFirst(s: string, left: string, right: string)
    requires s == left + "=" + right && '=' !in left
    ensures '=' in s && IndexOf(s, '=') == |left|
    ensures s[..IndexOf(s, '=')] == left && s[IndexOf(s, '=') + 1..] == right
  {
    assert s[|left|] == '=';
    assert forall j :: 0 <= j < |left| ==> s[j] == left[j];
    var i := IndexOf(s, '=');
    assert i == |left| by {
      assert i <= |left| by {
        assert s[..i] == s[..i];
      }
    }
    assert s[..|left|] == left;
    assert s[|left| + 1..] == right;
  }

  /**
   * An ordinary assignment: the trimmed line is split at its first `=`; the key
   * is the current path followed by the left part as it stands; the value is
   * the right part; the key becomes the last key, the pending comments go with
   * the record and are cleared, and `getLast(key)` now yields the value.
   */
  lemma AssignmentLine(p: Parser, d: Doc, line: string, left: string, value: string)
    requires !StartsWith(line, '[')
    requires Trim(line) == left + "=" + value && '=' !in left
    requires left != "." && !StartsWith(left, ';')
    ensures Step(p, d, line) ==
      Next(Parser(p.path, Some(p.path + left), []),
           Append(d, p.path + left, Record(value, Attached(p.pending))))
    ensures GetLast(Step(p, d, line).d, p.path + left) == Some(value)
  {
    var t := Trim(line);
    assert '=' in t;
    TrimKeeps(line, '=');
    SplitAtFirst(t, left, value);
    assert left != [] ==> t[0] == left[0];
    AppendedIsLast(d, p.path + left, Record(value, Attached(p.pending)));
  }

  /**
   * The shorthand `.=value` stores under the last key and keeps it; with no
   * last key (start of the load, or right after a header) it is refused.
   */
  lemma ShorthandLine(p: Parser, d: Doc, line: string, value: string)
    requires !StartsWith(line, '[')
    requires Trim(line) == ".=" + value
    ensures p.lastKey == None ==> Step(p, d, line) == Fail(ShorthandWithoutKey)
    ensures p.lastKey.Some? ==>
      Step(p, d, line) ==
        Next(p.(pending := []), Append(d, p.lastKey.value, Record(value, Attached(p.pending))))
  {
    var t := Trim(line);
    assert t == "." + "=" + value;
    TrimKeeps(line, '=');
    SplitAtFirst(t, ".", value);
  }

  /** A non-blank, non-comment line that is no header and has no `=` is refused. */
  lemma UnrecognisedLine(p: Parser, d: Doc, line: string)
    requires Trim(line) != [] && !StartsWith(Trim(line), ';')
    requires !StartsWith(line, '[') && '=' !in line
    ensures Step(p, d, line) == Fail(NoAssignment)
  {
  }

  lemma AppendedIsLast(d: Doc, k: string, r: Record)
    ensures GetLast(Append(d, k, r), k) == Some(r.val)
    ensures ContainsKey(Append(d, k, r), k)
  {
    var l := ListOf(Append(d, k, r), k);
    assert l[|l| - 1] == r;
  }

  // ---------------------------------------------------------------------------
  // Invariants kept by every line
  // ---------------------------------------------------------------------------

  predicate IsComment(c: string) {
    StartsWith(c, ';')
  }

  /**
   * The store is well formed with no empty list, every comment list attached
   * to a record is non-empty, and every comment, pending or stored, still
   * starts with its `;`.
   */
  predicate Consistent(p: Parser, d: Doc) {
    PendingOk(p.pending) && StoreOk(d)
  }

  predicate PendingOk(pending: seq<string>) {
    forall i :: 0 <= i < |pending| ==> IsComment(pending[i])
  }

  predicate RecordOk(r: Record) {
    r.comments.Some? ==> r.comments.value != [] && PendingOk(r.comments.value)
  }

  predicate StoreOk(d: Doc) {
    WellFormed(d) && NonEmptyLists(d) &&
    forall k, j :: k in d.lists && 0 <= j < |d.lists[k]| ==> RecordOk(d.lists[k][j])
  }

  /** The section path is always empty or ends in `.`. */
  predicate PathShape(p: Parser) {
    p.path == [] || EndsWith(p.path, '.')
  }

  lemma AppendConsistent(p: Parser, d: Doc, key: string, value: string)
    requires Consistent(p, d)
    ensures Consistent(p.(pending := []), Append(d, key, Record(value, Attached(p.pending))))
  {
    var r := Record(value, Attached(p.pending));
    assert RecordOk(r);
    var e := Append(d, key, r);
    AppendKeeps(d, key, r);
    forall k, j | k in e.lists && 0 <= j < |e.lists[k]|
      ensures RecordOk(e.lists[k][j])
    {
      if k != key {
        assert e.lists[k] == d.lists[k];
      } else if j < |ListOf(d, key)| {
        assert e.lists[k] == ListOf(d, key) + [r];
        assert e.lists[k][j] == d.lists[k][j];
      } else {
        assert e.lists[k] == ListOf(d, key) + [r];
        assert e.lists[k][j] == r;
      }
    }
  }

  /** The invariant holds after an accepted line (a failed one ends the load). */
  predicate StillConsistent(r: StepResult) {
    r.Next? ==> Consistent(r.p, r.d) && PathShape(r.p)
  }

  /** Every accepted line keeps `Consistent` and `PathShape`; a refused line ends the load. */
  lemma StepKeeps(p: Parser, d: Doc, line: string)
    requires Consistent(p, d) && PathShape(p)
    ensures StillConsistent(Step(p, d, line))
  {
    var t := Trim(line);
    if StartsWith(t, ';') {
      assert PendingOk(p.pending + [t]) by {
        assert forall i :: 0 <= i < |p.pending| ==> (p.pending + [t])[i] == p.pending[i];
      }
    } else if t != [] && !StartsWith(line, '[') && '=' in line {
      AssignKeeps(p, d, line);
    }
  }

  /** The assignment branch of `StepKeeps`. */
  lemma AssignKeeps(p: Parser, d: Doc, line: string)
    requires Consistent(p, d) && PathShape(p)
    requires var t := Trim(line); !StartsWith(t, ';') && t != [] && !StartsWith(line, '[') && '=' in line
    ensures StillConsistent(Step(p, d, line))
  {
    var t := Trim(line);
    TrimKeeps(line, '=');
    var eq := IndexOf(t, '=');
    var value := t[eq + 1..];
    if eq == 1 && t[0] == '.' {
      if p.lastKey.Some? {
        AppendConsistent(p, d, p.lastKey.value, value);
      }
    } else {
      var key := p.path + t[..eq];
      AppendConsistent(p.(lastKey := Some(key)), d, key, value);
    }
  }

  /** Each accepted line keeps old records and key order: it only ever appends. */
  lemma StepExtends(p: Parser, d: Doc, line: string)
    requires Step(p, d, line).Next?
    ensures Extends(d, Step(p, d, line).d)
  {
    var t := Trim(line);
    if !StartsWith(t, ';') && t != [] && !StartsWith(line, '[') && '=' in line {
      TrimKeeps(line, '=');
      var eq := IndexOf(t, '=');
      if eq == 1 && t[0] == '.' {
        AppendExtends(d, p.lastKey.value, Record(t[eq + 1..], Attached(p.pending)));
      } else {
        AppendExtends(d, p.path + t[..eq], Record(t[eq + 1..], Attached(p.pending)));
      }
    }
  }

  /** `e` holds everything `d` holds, in the same order: the keys and every list are prefixes. */
  predicate Extends(d: Doc, e: Doc) {
    |d.keys| <= |e.keys| && e.keys[..|d.keys|] == d.keys &&
    forall k :: k in d.lists ==> k in e.lists && |d.lists[k]| <= |e.lists[k]| && e.lists[k][..|d.lists[k]|] == d.lists[k]
  }

  lemma AppendExtends(d: Doc, k: string, r: Record)
    ensures Extends(d, Append(d, k, r))
  {
    var e := Append(d, k, r);
    forall k' | k' in d.lists
      ensures k' in e.lists && |d.lists[k']| <= |e.lists[k']| && e.lists[k'][..|d.lists[k']|] == d.lists[k']
    {
      assert ListOf(e, k') == e.lists[k'];
      assert ListOf(d, k') == d.lists[k'];
    }
  }

  lemma ExtendsTrans(a: Doc, b: Doc, c: Doc)
    requires Extends(a, b) && Extends(b, c)
    ensures Extends(a, c)
  {
    assert c.keys[..|a.keys|] == c.keys[..|b.keys|][..|a.keys|];
    forall k | k in a.lists
      ensures k in c.lists && |a.lists[k]| <= |c.lists[k]| && c.lists[k][..|a.lists[k]|] == a.lists[k]
    {
      assert c.lists[k][..|a.lists[k]|] == c.lists[k][..|b.lists[k]|][..|a.lists[k]|];
    }
  }

  /** A record stored while no comment was pending gets `null` comments, so serialising now throws. */
  lemma UncommentedAssignBreaksEmit(p: Parser, d: Doc, key: string, value: string)
    requires WellFormed(d) && p.pending == []
    ensures HasUncommented(Assign(p, d, key, value).d)
    ensures Emit(Assign(p, d, key, value).d).Crashed?
  {
    var e := Assign(p, d, key, value).d;
    var l := ListOf(e, key);
    assert l[|l| - 1].comments.None?;
    assert key in e.keys;
    var i :| 0 <= i < |e.keys| && e.keys[i] == key;
    assert ListOf(e, e.keys[i])[|l| - 1].comments.None?;
  }

  // ---------------------------------------------------------------------------
  // A whole load
  // ---------------------------------------------------------------------------

  /** An accepted first line hands its locals and store to the rest of the load. */
  lemma RunNext(p: Parser, d: Doc, lines: seq<string>, n: nat, p': Parser, d': Doc)
    requires lines != [] && Step(p, d, lines[0]) == Next(p', d')
    ensures Run(p, d, lines, n) == Run(p', d', lines[1..], n + 1)
  {
  }

  /** A refused first line stops the load with that line's number and the store as it was. */
  lemma RunFail(p: Parser, d: Doc, lines: seq<string>, n: nat, k: ErrorKind)
    requires lines != [] && Step(p, d, lines[0]) == Fail(k)
    ensures Run(p, d, lines, n) == Failed(d, LoadError(k, n))
  {
  }

  /** The loop of `load(Reader)` for any per-line step: it stops at the first line the step refuses. */
  function Fold(step: (Parser, Doc, string) -> StepResult, p: Parser, d: Doc, lines: seq<string>, n: nat): Outcome
    decreases |lines|
  {
    if lines == [] then Loaded(p, d)
    else match step(p, d, lines[0])
      case Fail(k) => Failed(d, LoadError(k, n))
      case Next(p', d') => Fold(step, p', d', lines[1..], n + 1)
  }

  /** Carries on with `lines`, first numbered `n`, from where a load stopped, unless it failed. */
  function FoldThen(step: (Parser, Doc, string) -> StepResult, o: Outcome, lines: seq<string>, n: nat): Outcome {
    match o
    case Failed(_, _) => o
    case Loaded(q, e) => Fold(step, q, e, lines, n)
  }

  /** Folding over two blocks of lines is folding over the second from where the first stopped. */
  lemma {:induction false} FoldConcat(step: (Parser, Doc, string) -> StepResult, p: Parser, d: Doc, a: seq<string>, b: seq<string>, n: nat)
    ensures Fold(step, p, d, a + b, n) == FoldThen(step, Fold(step, p, d, a, n), b, n + |a|)
    decreases |a|
  {
    if a == [] {
      assert a + b == b;
    } else {
      var ab := a + b;
      assert ab[0] == a[0];
      assert ab[1..] == a[1..] + b;
      var r := step(p, d, a[0]);
      if r.Next? {
        FoldConcat(step, r.p, r.d, a[1..], b, n + 1);
      }
    }
  }

  /** `Run` is the fold with `Step`. */
  lemma {:induction false} RunIsFold(p: Parser, d: Doc, lines: seq<string>, n: nat)
    ensures Run(p, d, lines, n) == Fold(Step, p, d, lines, n)
    decreases |lines|
  {
    if lines != [] {
      var r := Step(p, d, lines[0]);
      if r.Next? {
        RunIsFold(r.p, r.d, lines[1..], n + 1);
      }
    }
  }

  /** Running two blocks of lines is running the second from where the first stopped. */
  lemma RunConcat(p: Parser, d: Doc, a: seq<string>, b: seq<string>, n: nat)
    ensures Run(p, d, a + b, n) == FoldThen(Step, Run(p, d, a, n), b, n + |a|)
  {
    RunIsFold(p, d, a + b, n);
    RunIsFold(p, d, a, n);
    FoldConcat(Step, p, d, a, b, n);
  }

  /** A load keeps `Consistent` and `PathShape`; a failed load leaves a store a fresh parser could continue. */
  lemma {:induction false} RunKeeps(p: Parser, d: Doc, lines: seq<string>, n: nat)
    requires Consistent(p, d) && PathShape(p)
    ensures Run(p, d, lines, n).Loaded? ==>
      Consistent(Run(p, d, lines, n).p, Run(p, d, lines, n).d) && PathShape(Run(p, d, lines, n).p)
    ensures Run(p, d, lines, n).Failed? ==> Consistent(Start(), Run(p, d, lines, n).d)
    decreases |lines|
  {
    if lines != [] {
      match Step(p, d, lines[0])
      case Fail(k) =>
      case Next(p', d') =>
        StepKeeps(p, d, lines[0]);
        RunKeeps(p', d', lines[1..], n + 1);
    }
  }

  /** Whether it succeeds or fails, a load never removes or reorders what was stored before: loads are cumulative. */
  lemma {:induction false} RunExtends(p: Parser, d: Doc, lines: seq<string>, n: nat)
    ensures Extends(d, Run(p, d, lines, n).d)
    decreases |lines|
  {
    if lines == [] || Step(p, d, lines[0]).Fail? {
      assert d.keys[..|d.keys|] == d.keys;
      assert forall k :: k in d.lists ==> d.lists[k][..|d.lists[k]|] == d.lists[k];
    } else {
      var r := Step(p, d, lines[0]);
      StepExtends(p, d, lines[0]);
      RunExtends(r.p, r.d, lines[1..], n + 1);
      ExtendsTrans(d, r.d, Run(r.p, r.d, lines[1..], n + 1).d);
    }
  }

  /**
   * A load that fails names the 1-based number `n + i` of the offending line
   * `lines[i]`; the store is exactly what the lines before it produced (with
   * final locals `q`), so nothing of that line was committed.
   */
  lemma {:induction false} RunFailsAtLine(p: Parser, d: Doc, lines: seq<string>, n: nat) returns (i: nat, q: Parser)
    requires Run(p, d, lines, n).Failed?
    ensures i < |lines| && Run(p, d, lines, n).err.line == n + i
    ensures Run(p, d, lines[..i], n) == Loaded(q, Run(p, d, lines, n).d)
    ensures Step(q, Run(p, d, lines, n).d, lines[i]) == Fail(Run(p, d, lines, n).err.kind)
    decreases |lines|
  {
    var r := Step(p, d, lines[0]);
    if r.Fail? {
      assert lines[..0] == [];
      i, q := 0, p;
    } else {
      var rest := lines[1..];
      RunNext(p, d, lines, n, r.p, r.d);
      var j;
      j, q := RunFailsAtLine(r.p, r.d, rest, n + 1);
      i := j + 1;
      var pre := lines[..i];
      assert pre[0] == lines[0] && pre[1..] == rest[..j];
      RunNext(p, d, pre, n, r.p, r.d);
      assert rest[j] == lines[i];
    }
  }
}
