/**
 * The document store of `SFIni`: an insertion-ordered map from key to the list
 * of `Data` records stored under it, its read accessors, and the text that
 * `writeToStringConsumer` pushes out.
 */
module IniStore {
  import opened Wrappers
  import opened JavaText

  /** `SFIni.Data`: a value and the comment lines that preceded it; `None` is Java's `null`. */
  datatype Record = Record(val: string, comments: Option<seq<string>>)

  /**
   * The `LinkedHashMap<String, List<Data>>`: `keys` is its iteration order,
   * `lists` its contents.
   */
  datatype Doc = Doc(keys: seq<string>, lists: map<string, seq<Record>>)

  /** Keys are listed once each, and exactly the keys of the map are listed. */
  predicate WellFormed(d: Doc) {
    (forall i, j :: 0 <= i < j < |d.keys| ==> d.keys[i] != d.keys[j]) &&
    (forall k :: k in d.lists ==> k in d.keys) &&
    (forall i :: 0 <= i < |d.keys| ==> d.keys[i] in d.lists)
  }

  /** No key is present with an empty list (the loader never creates one). */
  predicate NonEmptyLists(d: Doc) {
    forall k :: k in d.lists ==> |d.lists[k]| > 0
  }

  /** The list under `k`, empty when `k` is absent. */
  function ListOf(d: Doc, k: string): seq<Record> {
    if k in d.lists then d.lists[k] else []
  }

  /** A new `SFIni`: `data = new LinkedHashMap<>()`. */
  function Empty(): (d: Doc)
    ensures WellFormed(d) && NonEmptyLists(d)
    ensures forall k :: ListOf(d, k) == []
  {
    Doc([], map[])
  }

  /**
   * `data.compute(key, ...)` that creates the list when missing and adds one
   * record at its end; a key seen for the first time goes to the end of the order.
   */
  function Append(d: Doc, k: string, r: Record): (e: Doc)
    ensures ListOf(e, k) == ListOf(d, k) + [r]
    ensures forall k' :: k' != k ==> ListOf(e, k') == ListOf(d, k')
    ensures e.keys == if k in d.lists then d.keys else d.keys + [k]
  {
    Doc(if k in d.lists then d.keys else d.keys + [k], d.lists[k := ListOf(d, k) + [r]])
  }

  /** Appending keeps the key order in step with the map and creates no empty list. */
  lemma AppendKeeps(d: Doc, k: string, r: Record)
    ensures forall k' :: k' in Append(d, k, r).lists <==> k' in d.lists || k' == k
    ensures WellFormed(d) ==> WellFormed(Append(d, k, r))
    ensures NonEmptyLists(d) ==> NonEmptyLists(Append(d, k, r))
  {
    var e := Append(d, k, r);
    if WellFormed(d) && k !in d.lists {
      forall i, j | 0 <= i < j < |e.keys| ensures e.keys[i] != e.keys[j] {
        if j == |e.keys| - 1 { assert e.keys[i] == d.keys[i]; }
      }
    }
  }

  /** `containsKey`. */
  function ContainsKey(d: Doc, k: string): (r: bool)
    ensures r <==> ListOf(d, k) != []
  {
    k in d.lists && |d.lists[k]| > 0
  }

  /** `getLast`: the value of the last record under `k`, `None` for Java's `null`. */
  function GetLast(d: Doc, k: string): (r: Option<string>)
    ensures r.Some? <==> ContainsKey(d, k)
    ensures r.Some? ==> exists i :: 0 <= i < |ListOf(d, k)| && ListOf(d, k)[i].val == r.value
    ensures r.Some? ==> r.value == ListOf(d, k)[|ListOf(d, k)| - 1].val
  {
    var l := ListOf(d, k);
    if l == [] then None else Some(l[|l| - 1].val)
  }

  /** Why `getBoolean` throws. */
  datatype BoolError = NoValue | NotBoolean

  /**
   * `getBoolean`: the last value lower-cased and matched against `1`, `true`,
   * `0` and `false`.
   */
  function GetBoolean(d: Doc, k: string): (r: Result<bool, BoolError>)
    ensures r == Err(NoValue) <==> !ContainsKey(d, k)
    ensures r == Ok(true) <==>
      ContainsKey(d, k) && (GetLast(d, k).value == "1" || CaseVariant(GetLast(d, k).value, "true"))
    ensures r == Ok(false) <==>
      ContainsKey(d, k) && (GetLast(d, k).value == "0" || CaseVariant(GetLast(d, k).value, "false"))
  {
    match GetLast(d, k)
    case None => Err(NoValue)
    case Some(v) =>
      var l := ToLower(v);
      ToLowerIsCaseVariant(v, "true");
      ToLowerIsCaseVariant(v, "false");
      ToLowerIsCaseVariant(v, "1");
      ToLowerIsCaseVariant(v, "0");
      if l == "1" || l == "true" then Ok(true)
      else if l == "0" || l == "false" then Ok(false)
      else Err(NotBoolean)
  }

  // ---------------------------------------------------------------------------
  // Serialisation
  // ---------------------------------------------------------------------------

  /**
   * The fragments handed to the consumer. `Crashed` is the
   * `NullPointerException` thrown on a record whose comments are `null`,
   * carrying what was pushed before it.
   */
  datatype Emitted = Done(frags: seq<string>) | Crashed(frags: seq<string>)

  /** Runs `a`, then `b` unless `a` threw. */
  function Then(a: Emitted, b: Emitted): Emitted {
    if a.Crashed? then a
    else if b.Crashed? then Crashed(a.frags + b.frags)
    else Done(a.frags + b.frags)
  }

  lemma ThenDoneEmpty(b: Emitted)
    ensures Then(Done([]), b) == b
  {
    assert [] + b.frags == b.frags;
  }

  /** `";" + com + "\r\n"` for each comment, in order. */
  function CommentFrags(cs: seq<string>): (r: seq<string>)
    ensures |r| == 3 * |cs|
  {
    if cs == [] then []
    else CommentFrags(cs[..|cs| - 1]) + [";", cs[|cs| - 1], "\r\n"]
  }

  /** Comment `i` is written as the three fragments `;`, the comment, and a line break, in order. */
  lemma {:induction false} CommentFragsAt(cs: seq<string>)
    ensures forall i :: 0 <= i < |cs| ==>
      CommentFrags(cs)[3 * i] == ";" && CommentFrags(cs)[3 * i + 1] == cs[i] && CommentFrags(cs)[3 * i + 2] == "\r\n"
  {
    if cs != [] {
      var init := cs[..|cs| - 1];
      CommentFragsAt(init);
      forall i | 0 <= i < |cs|
        ensures CommentFrags(cs)[3 * i] == ";" && CommentFrags(cs)[3 * i + 1] == cs[i] && CommentFrags(cs)[3 * i + 2] == "\r\n"
      {
        if i < |init| {
          assert init[i] == cs[i];
        }
      }
    }
  }

  /** One record: its comments, then `key=val`; throws at once when the comments are `null`. */
  function RecordFrags(k: string, r: Record): (e: Emitted)
    ensures e.Crashed? <==> r.comments.None?
    ensures e.Crashed? ==> e.frags == []
    ensures e.Done? ==> |e.frags| == 3 * |r.comments.value| + 4
  {
    match r.comments
    case None => Crashed([])
    case Some(cs) => Done(CommentFrags(cs) + [k, "=", r.val, "\r\n"])
  }

  /** Some record in `rs` has `null` comments. */
  predicate HasUncommentedIn(rs: seq<Record>) {
    exists j :: 0 <= j < |rs| && rs[j].comments.None?
  }

  lemma UncommentedInSnoc(rs: seq<Record>, r: Record)
    ensures HasUncommentedIn(rs + [r]) <==> HasUncommentedIn(rs) || r.comments.None?
  {
    var s := rs + [r];
    if HasUncommentedIn(rs) {
      var j :| 0 <= j < |rs| && rs[j].comments.None?;
      assert s[j] == rs[j];
    }
    if r.comments.None? {
      assert s[|rs|] == r;
    }
    if HasUncommentedIn(s) && !r.comments.None? {
      var j :| 0 <= j < |s| && s[j].comments.None?;
      assert j < |rs| && rs[j] == s[j];
    }
  }

  /**
   * The records of one key, in list order; when none throws, each record
   * yields at least its four `key`, `=`, value, CRLF fragments.
   */
  function RecordsFrags(k: string, rs: seq<Record>): (e: Emitted)
    ensures e.Done? ==> |e.frags| >= 4 * |rs|
  {
    if rs == [] then Done([])
    else Then(RecordsFrags(k, rs[..|rs| - 1]), RecordFrags(k, rs[|rs| - 1]))
  }

  /** One more record appends its fragments to those of the records before it. */
  lemma RecordsSnoc(k: string, rs: seq<Record>, j: nat)
    requires j < |rs|
    ensures RecordsFrags(k, rs[..j + 1]) == Then(RecordsFrags(k, rs[..j]), RecordFrags(k, rs[j]))
  {
    assert rs[..j + 1][..j] == rs[..j];
  }

  lemma {:induction false} RecordsCrashIff(k: string, rs: seq<Record>)
    ensures RecordsFrags(k, rs).Crashed? <==> HasUncommentedIn(rs)
  {
    if rs != [] {
      var init := rs[..|rs| - 1];
      RecordsCrashIff(k, init);
      UncommentedInSnoc(init, rs[|rs| - 1]);
      assert init + [rs[|rs| - 1]] == rs;
    }
  }

  /** Some record under one of the keys `ks` has `null` comments. */
  predicate AnyUncommented(d: Doc, ks: seq<string>) {
    exists i :: 0 <= i < |ks| && HasUncommentedIn(ListOf(d, ks[i]))
  }

  lemma AnyUncommentedSnoc(d: Doc, ks: seq<string>)
    requires ks != []
    ensures AnyUncommented(d, ks) <==>
      AnyUncommented(d, ks[..|ks| - 1]) || HasUncommentedIn(ListOf(d, ks[|ks| - 1]))
  {
    var init := ks[..|ks| - 1];
    if AnyUncommented(d, ks) {
      var i :| 0 <= i < |ks| && HasUncommentedIn(ListOf(d, ks[i]));
      if i < |init| { assert init[i] == ks[i]; }
    }
    if AnyUncommented(d, init) {
      var i :| 0 <= i < |init| && HasUncommentedIn(ListOf(d, init[i]));
      assert ks[i] == init[i];
    }
  }

  /**
   * The keys `ks` of `d`, in the order given; when none throws and every key
   * holds a record, each key yields at least one `key=value` line.
   */
  function KeysFrags(d: Doc, ks: seq<string>): (e: Emitted)
    ensures e.Done? && (forall i :: 0 <= i < |ks| ==> ListOf(d, ks[i]) != []) ==> |e.frags| >= 4 * |ks|
  {
    if ks == [] then Done([])
    else Then(KeysFrags(d, ks[..|ks| - 1]), RecordsFrags(ks[|ks| - 1], ListOf(d, ks[|ks| - 1])))
  }

  /** One more key appends the fragments of its records to those of the keys before it. */
  lemma KeysSnoc(d: Doc, ks: seq<string>, i: nat)
    requires i < |ks|
    ensures KeysFrags(d, ks[..i + 1]) == Then(KeysFrags(d, ks[..i]), RecordsFrags(ks[i], ListOf(d, ks[i])))
  {
    assert ks[..i + 1][..i] == ks[..i];
  }

  lemma {:induction false} KeysCrashIff(d: Doc, ks: seq<string>)
    ensures KeysFrags(d, ks).Crashed? <==> AnyUncommented(d, ks)
  {
    if ks != [] {
      KeysCrashIff(d, ks[..|ks| - 1]);
      RecordsCrashIff(ks[|ks| - 1], ListOf(d, ks[|ks| - 1]));
      AnyUncommentedSnoc(d, ks);
    }
  }

  /** Some record of some listed key has `null` comments. */
  predicate HasUncommented(d: Doc) {
    exists i, j :: 0 <= i < |d.keys| && 0 <= j < |ListOf(d, d.keys[i])| &&
      ListOf(d, d.keys[i])[j].comments.None?
  }

  /** `writeToStringConsumer`: every key in insertion order; it throws iff some stored record has `null` comments. */
  function Emit(d: Doc): (e: Emitted)
    ensures e.Crashed? <==> HasUncommented(d)
  {
    assert HasUncommented(d) ==> AnyUncommented(d, d.keys) by {
      if HasUncommented(d) {
        var i, j :| 0 <= i < |d.keys| && 0 <= j < |ListOf(d, d.keys[i])| &&
          ListOf(d, d.keys[i])[j].comments.None?;
        assert HasUncommentedIn(ListOf(d, d.keys[i]));
      }
    }
    assert AnyUncommented(d, d.keys) ==> HasUncommented(d) by {
      if AnyUncommented(d, d.keys) {
        var i :| 0 <= i < |d.keys| && HasUncommentedIn(ListOf(d, d.keys[i]));
        var j :| 0 <= j < |ListOf(d, d.keys[i])| && ListOf(d, d.keys[i])[j].comments.None?;
      }
    }
    KeysCrashIff(d, d.keys);
    KeysFrags(d, d.keys)
  }

  /** What the consumer's `StringBuilder` holds: the fragments joined. */
  function Join(fs: seq<string>): (r: string)
    ensures fs != [] ==> fs[0] <= r
  {
    if fs == [] then []
    else
      var init := fs[..|fs| - 1];
      assert init != [] ==> init[0] == fs[0];
      Join(init) + fs[|fs| - 1]
  }

  lemma {:induction false} KeysFragsOnlyListed(d: Doc, e: Doc, ks: seq<string>)
    requires forall i :: 0 <= i < |ks| ==> ListOf(d, ks[i]) == ListOf(e, ks[i])
    ensures KeysFrags(d, ks) == KeysFrags(e, ks)
  {
    if ks != [] {
      KeysFragsOnlyListed(d, e, ks[..|ks| - 1]);
    }
  }

  /**
   * A key seen for the first time is written after everything already in the
   * store: output order is insertion order.
   */
  lemma EmitAppendNewKey(d: Doc, k: string, r: Record)
    requires WellFormed(d) && k !in d.lists
    ensures Emit(Append(d, k, r)) == Then(Emit(d), RecordFrags(k, r))
  {
    var e := Append(d, k, r);
    assert e.keys[..|e.keys| - 1] == d.keys;
    KeysFragsOnlyListed(d, e, d.keys);
    assert ListOf(e, k) == [r];
    assert [r][..0] == [];
    ThenDoneEmpty(RecordFrags(k, r));
    calc {
      Emit(e);
      Then(KeysFrags(e, d.keys), RecordsFrags(k, [r]));
      Then(KeysFrags(d, d.keys), RecordsFrags(k, [r]));
      { assert RecordsFrags(k, [r]) == Then(RecordsFrags(k, []), RecordFrags(k, r)); }
      Then(Emit(d), RecordFrags(k, r));
    }
  }

  /**
   * A further record under the most recently added key is written right after
   * that key's earlier records, at the end of the output.
   */
  lemma EmitAppendLastKey(d: Doc, r: Record)
    requires WellFormed(d) && d.keys != []
    ensures Emit(Append(d, d.keys[|d.keys| - 1], r)) ==
      Then(Emit(d.(keys := d.keys[..|d.keys| - 1])),
           Then(RecordsFrags(d.keys[|d.keys| - 1], ListOf(d, d.keys[|d.keys| - 1])),
                RecordFrags(d.keys[|d.keys| - 1], r)))
  {
    var k := d.keys[|d.keys| - 1];
    var e := Append(d, k, r);
    var init := d.keys[..|d.keys| - 1];
    assert e.keys == d.keys;
    forall i | 0 <= i < |init| ensures ListOf(d, init[i]) == ListOf(e, init[i]) {
      assert init[i] == d.keys[i];
    }
    KeysFragsOnlyListed(d.(keys := init), e, init);
    assert ListOf(e, k)[..|ListOf(e, k)| - 1] == ListOf(d, k);
    calc {
      Emit(e);
      Then(KeysFrags(e, init), RecordsFrags(k, ListOf(e, k)));
      Then(KeysFrags(d.(keys := init), init), RecordsFrags(k, ListOf(e, k)));
      Then(Emit(d.(keys := init)), Then(RecordsFrags(k, ListOf(d, k)), RecordFrags(k, r)));
    }
  }

  lemma JoinAppend(fs: seq<string>, gs: seq<string>)
    ensures Join(fs + gs) == Join(fs) + Join(gs)
    decreases |gs|
  {
    if gs == [] {
      assert fs + gs == fs;
    } else {
      var init := gs[..|gs| - 1];
      assert (fs + gs)[..|fs + gs| - 1] == fs + init;
      assert (fs + gs)[|fs + gs| - 1] == gs[|gs| - 1];
      JoinAppend(fs, init);
      calc {
        Join(fs + gs);
        Join(fs + init) + gs[|gs| - 1];
        (Join(fs) + Join(init)) + gs[|gs| - 1];
        Join(fs) + (Join(init) + gs[|gs| - 1]);
        Join(fs) + Join(gs);
      }
    }
  }

  /**
   * Once comments are present, the text of one record is each comment line
   * behind a `;`, then the `key=value` line, all CRLF-terminated.
   */
  lemma RecordText(k: string, v: string, cs: seq<string>)
    ensures RecordFrags(k, Record(v, Some(cs))).Done?
    ensures Join(RecordFrags(k, Record(v, Some(cs))).frags) ==
      Join(CommentFrags(cs)) + k + "=" + v + "\r\n"
  {
    JoinAppend(CommentFrags(cs), [k, "=", v, "\r\n"]);
    assert [k, "=", v, "\r\n"][..3] == [k, "=", v];
    assert [k, "=", v][..2] == [k, "="];
    assert [k, "="][..1] == [k];
    assert [k][..0] == [];
    calc {
      Join([k, "=", v, "\r\n"]);
      Join([k, "=", v]) + "\r\n";
      (Join([k, "="]) + v) + "\r\n";
      ((Join([k]) + "=") + v) + "\r\n";
      { assert Join([k]) == [] + k == k; }
      k + "=" + v + "\r\n";
    }
  }

  /** Once a prefix of the records has thrown, the remaining records change nothing. */
  lemma {:induction false} RecordsCrashStays(k: string, rs: seq<Record>, m: nat)
    requires m <= |rs| && RecordsFrags(k, rs[..m]).Crashed?
    ensures RecordsFrags(k, rs) == RecordsFrags(k, rs[..m])
    decreases |rs| - m
  {
    if m < |rs| {
      var init := rs[..|rs| - 1];
      assert init[..m] == rs[..m];
      RecordsCrashStays(k, init, m);
    } else {
      assert rs[..m] == rs;
    }
  }

  /** Once a prefix of the keys has thrown, the remaining keys change nothing. */
  lemma {:induction false} KeysCrashStays(d: Doc, ks: seq<string>, m: nat)
    requires m <= |ks| && KeysFrags(d, ks[..m]).Crashed?
    ensures KeysFrags(d, ks) == KeysFrags(d, ks[..m])
    decreases |ks| - m
  {
    if m < |ks| {
      var init := ks[..|ks| - 1];
      assert init[..m] == ks[..m];
      KeysCrashStays(d, init, m);
    } else {
      assert ks[..m] == ks;
    }
  }
}
