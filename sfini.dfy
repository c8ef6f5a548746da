/**
 * The class `SFIni` itself: its `data` field, `load(Reader)` as the loop the
 * source runs, and `writeToStringConsumer` / `toString`.
 */
module Ini {
  import opened Wrappers
  import opened JavaText
  import opened IniStore
  import opened IniLoader

  class SFIni {
    /** Iteration order of the `LinkedHashMap` field `data`. */
    var keys: seq<string>
    /** Contents of the `LinkedHashMap` field `data`. */
    var data: map<string, seq<Record>>

    /** The store as a value: what the accessors `ContainsKey`, `GetLast` and `GetBoolean` read. */
    function Contents(): Doc
      reads this
    {
      Doc(keys, data)
    }

    predicate Valid()
      reads this
    {
      WellFormed(Contents())
    }

    constructor ()
      ensures Valid() && Contents() == Empty()
    {
      keys := [];
      data := map[];
    }

    /**
     * `load(Reader)` over the lines the reader yields. On an error the loop
     * stops at once: `err` names the kind and the 1-based line, and the store
     * keeps every line before it.
     */
    method Load(lines: seq<string>) returns (err: Option<LoadError>)
      requires Valid()
      modifies this
      ensures Valid()
      ensures match LoadLines(old(Contents()), lines)
        case Loaded(_, d) => err == None && Contents() == d
        case Failed(d, e) => err == Some(e) && Contents() == d
    {
      var lineNum: nat := 1;
      var seqKey: Option<string> := None;
      var seqComments: seq<string> := [];
      var path: string := "";
      var i := 0;
      while i < |lines|
        invariant 0 <= i <= |lines| && lineNum == i + 1
        invariant Valid()
        invariant LoadLines(old(Contents()), lines) ==
          Run(Parser(path, seqKey, seqComments), Contents(), lines[i..], lineNum)
      {
        ghost var p0 := Parser(path, seqKey, seqComments);
        ghost var d0 := Contents();
        assert lines[i..][0] == lines[i] && lines[i..][1..] == lines[i + 1..];
        var kind;
        path, seqKey, seqComments, kind := LoadLine(lines[i], path, seqKey, seqComments);
        if kind.Some? {
          assert Run(p0, d0, lines[i..], lineNum) == Failed(d0, LoadError(kind.value, lineNum));
          return Some(LoadError(kind.value, lineNum));
        }
        lineNum := lineNum + 1;
        i := i + 1;
      }
      err := None;
    }

    /**
     * One pass of the loop of `load(Reader)`: classifies `line` and updates the
     * locals and the store, or names the exception the line raises, in which
     * case the store is untouched.
     */
    method LoadLine(line: string, path0: string, seqKey0: Option<string>, seqComments0: seq<string>)
      returns (path: string, seqKey: Option<string>, seqComments: seq<string>, err: Option<ErrorKind>)
      requires Valid()
      modifies this
      ensures Valid()
      ensures match Step(Parser(path0, seqKey0, seqComments0), old(Contents()), line)
        case Fail(k) => err == Some(k) && Contents() == old(Contents())
        case Next(p, d) => err == None && Parser(path, seqKey, seqComments) == p && Contents() == d
    {
      path, seqKey, seqComments, err := path0, seqKey0, seqComments0, None;
      var trunc := Trim(line);
      if StartsWith(trunc, ';') {
        seqComments := seqComments + [trunc];
        return;
      }
      if trunc == [] {
        return;
      }
      if StartsWith(line, '[') {
        path, seqKey, seqComments, err := ReadHeader(line, trunc, path0, seqKey0, seqComments0);
        return;
      }
      if '=' in line {
        TrimKeeps(line, '=');
        seqKey, seqComments, err := StoreAssignment(trunc, path0, seqKey0, seqComments0);
      } else {
        err := Some(NoAssignment);
      }
    }

    /**
     * The header branch of the loop: clears `seqKey` and `seqComments`, then
     * validates the header and sets `path`, or names the exception.
     */
    static method ReadHeader(line: string, trunc: string, path0: string, seqKey0: Option<string>, seqComments0: seq<string>)
      returns (path: string, seqKey: Option<string>, seqComments: seq<string>, err: Option<ErrorKind>)
      requires StartsWith(trunc, '[')
      ensures match HeaderStep(Parser(path0, seqKey0, seqComments0), Empty(), line, trunc)
        case Fail(k) => err == Some(k)
        case Next(p, _) => err == None && Parser(path, seqKey, seqComments) == p
    {
      path := path0;
      seqKey := None;
      seqComments := [];
      err := None;
      if ';' in line {
        return path, seqKey, seqComments, Some(SemicolonInHeader);
      }
      if EndsWith(trunc, ']') {
        var newPath := trunc[1..|trunc| - 1];
        if '[' in newPath || ']' in newPath {
          return path, seqKey, seqComments, Some(BracketInHeader);
        }
        if !(newPath == [] || EndsWith(newPath, '.')) {
          newPath := newPath + ".";
        }
        if StartsWith(newPath, '.') {
          path := path + newPath;
        } else {
          path := newPath;
        }
      } else {
        err := Some(UnclosedHeader);
      }
    }

    /**
     * The assignment branch of the loop: picks the key (`.=` reuses `seqKey`),
     * hands the pending comments to the new record, and appends it to `data`.
     */
    method StoreAssignment(trunc: string, path: string, seqKey0: Option<string>, seqComments0: seq<string>)
      returns (seqKey: Option<string>, seqComments: seq<string>, err: Option<ErrorKind>)
      requires Valid() && '=' in trunc
      modifies this
      ensures Valid()
      ensures match AssignStep(Parser(path, seqKey0, seqComments0), old(Contents()), trunc)
        case Fail(k) => err == Some(k) && Contents() == old(Contents())
        case Next(p, d) => err == None && Parser(path, seqKey, seqComments) == p && Contents() == d
    {
      seqKey, seqComments, err := seqKey0, seqComments0, None;
      var equals := IndexOf(trunc, '=');
      var key: string;
      if equals == 1 && trunc[0] == '.' {
        if seqKey == None {
          return seqKey, seqComments, Some(ShorthandWithoutKey);
        }
        key := seqKey.value;
      } else {
        key := path + trunc[..equals];
        seqKey := Some(key);
      }
      var value := trunc[equals + 1..];
      var seqCom: Option<seq<string>>;
      if seqComments != [] {
        seqCom := Some(seqComments);
        seqComments := [];
      } else {
        seqCom := None;
      }
      Compute(key, Record(value, seqCom));
    }

    /** `data.compute(key, ...)`: creates the list when the key is missing, then adds the record. */
    method Compute(key: string, r: Record)
      requires Valid()
      modifies this
      ensures Valid()
      ensures Contents() == Append(old(Contents()), key, r)
    {
      var l := if key in data then data[key] else [];
      if key !in data {
        keys := keys + [key];
      }
      data := data[key := l + [r]];
      AppendKeeps(old(Contents()), key, r);
    }

    /**
     * `writeToStringConsumer`: the fragments pushed to the consumer, in order.
     * `Crashed` is the `NullPointerException` on the first record whose
     * comments are `null`, with the fragments pushed before it.
     */
    method WriteToStringConsumer() returns (out: Emitted)
      requires Valid()
      ensures out == Emit(Contents())
    {
      var frags: seq<string> := [];
      var i := 0;
      while i < |keys|
        invariant 0 <= i <= |keys|
        invariant KeysFrags(Contents(), keys[..i]) == Done(frags)
      {
        var key := keys[i];
        var o := WriteRecords(frags, key, data[key]);
        KeysSnoc(Contents(), keys, i);
        if o.Crashed? {
          KeysCrashStays(Contents(), keys, i + 1);
          return o;
        }
        frags := o.frags;
        i := i + 1;
      }
      assert keys[..i] == keys;
      out := Done(frags);
    }

    /** `toString()`: the pushed fragments joined, or `None` when serialising throws. */
    method ToString() returns (s: Option<string>)
      requires Valid()
      ensures Emit(Contents()).Done? ==> s == Some(Join(Emit(Contents()).frags))
      ensures Emit(Contents()).Crashed? <==> s == None
      ensures s == None <==> HasUncommented(Contents())
    {
      var out := WriteToStringConsumer();
      if out.Crashed? {
        return None;
      }
      return Some(Join(out.frags));
    }
  }

  /** The innermost loop of `writeToStringConsumer`: `;`, the comment and CRLF, per comment. */
  method WriteComments(frags: seq<string>, cs: seq<string>) returns (out: seq<string>)
    ensures out == frags + CommentFrags(cs)
  {
    out := frags;
    var c := 0;
    while c < |cs|
      invariant 0 <= c <= |cs|
      invariant out == frags + CommentFrags(cs[..c])
    {
      assert cs[..c + 1][..c] == cs[..c] && cs[..c + 1][c] == cs[c];
      out := out + [";", cs[c], "\r\n"];
      c := c + 1;
    }
    assert cs[..c] == cs;
  }

  /**
   * The middle loop of `writeToStringConsumer`: the records of one key after
   * the fragments `frags` already pushed.
   */
  method WriteRecords(frags: seq<string>, key: string, l: seq<Record>) returns (out: Emitted)
    ensures out == Then(Done(frags), RecordsFrags(key, l))
  {
    var acc := frags;
    var j := 0;
    while j < |l|
      invariant 0 <= j <= |l|
      invariant RecordsFrags(key, l[..j]).Done?
      invariant acc == frags + RecordsFrags(key, l[..j]).frags
    {
      var v := l[j];
      ghost var prev := RecordsFrags(key, l[..j]).frags;
      RecordsSnoc(key, l, j);
      if v.comments.None? {
        assert prev + [] == prev;
        RecordsCrashStays(key, l, j + 1);
        return Crashed(acc);
      }
      ghost var body := CommentFrags(v.comments.value) + [key, "=", v.val, "\r\n"];
      acc := WriteComments(acc, v.comments.value);
      acc := acc + [key, "=", v.val, "\r\n"];
      assert acc == frags + (prev + body);
      assert RecordsFrags(key, l[..j + 1]) == Done(prev + body);
      j := j + 1;
    }
    assert l[..j] == l;
    out := Done(acc);
  }
}
