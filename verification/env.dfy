/**
 * Start-up reading of the optional `.env` file (main.go:223-244): each line
 * holding `=` is split at its first `=`, both sides are trimmed, and the
 * variable is set only when the environment does not already give it a
 * non-empty value. The process environment is an object with a map of
 * variables; the file is the sequence of its lines, or `None` when it cannot
 * be opened.
 */
module Env {
  import opened Wrappers
  import opened Text

  /** A `key=value` line, both sides trimmed. */
  datatype Entry = Entry(key: string, value: string)

  /** `os.Getenv`: the value, or empty for an unset variable. */
  function Lookup(vars: map<string, string>, key: string): string {
    if key in vars then vars[key] else ""
  }

  /**
   * Whether `os.Setenv` on Unix accepts the pair: the key is non-empty and
   * holds neither `=` nor NUL, and the value holds no NUL. Otherwise it
   * reports an error, which the loader ignores.
   */
  predicate Settable(key: string, value: string) {
    key != "" && '=' !in key && '\0' !in key && '\0' !in value
  }

  /** `strings.SplitN(line, "=", 2)` with two parts, trimmed; `None` for a line without `=`. */
  function EnvEntry(line: string): (e: Option<Entry>)
    ensures e.Some? <==> Contains(line, "=")
    ensures e.Some? ==> '=' !in e.value.key && IsTrimmed(e.value.key) && IsTrimmed(e.value.value)
  {
    var i := IndexOf(line, "=");
    if i < 0 then None
    else
      assert '=' !in line[..i] by {
        forall j | 0 <= j < i ensures line[j] != '=' {
          assert !IsAt(line, "=", j);
          assert line[j..j + 1] == [line[j]];
        }
      }
      TrimSpaceChars(line[..i]);
      Some(Entry(TrimSpace(line[..i]), TrimSpace(line[i + 1..])))
  }

  /** The effect of one line on the variables. */
  function ApplyLine(vars: map<string, string>, line: string): map<string, string> {
    match EnvEntry(line)
    case None => vars
    case Some(e) => if Lookup(vars, e.key) == "" && Settable(e.key, e.value) then vars[e.key := e.value] else vars
  }

  /** The variables after the loader has read `lines`, one after the other. */
  function LoadedEnv(vars: map<string, string>, lines: seq<string>): map<string, string>
    decreases |lines|
  {
    if lines == [] then vars
    else ApplyLine(LoadedEnv(vars, lines[..|lines| - 1]), lines[|lines| - 1])
  }

  class Environment {
    var vars: map<string, string>

    constructor (initial: map<string, string>)
      ensures vars == initial
    {
      vars := initial;
    }

    function Getenv(key: string): string
      reads this
    {
      Lookup(vars, key)
    }

    /** `os.Setenv`: sets the variable when the pair is acceptable, and says whether it did. */
    method Setenv(key: string, value: string) returns (ok: bool)
      modifies this
      ensures ok == Settable(key, value)
      ensures vars == if ok then old(vars)[key := value] else old(vars)
    {
      ok := Settable(key, value);
      if ok {
        vars := vars[key := value];
      }
    }

    /** `loadEnv`: nothing happens without a file; otherwise every line is applied in order. */
    method LoadEnv(file: Option<seq<string>>)
      modifies this
      ensures file.None? ==> vars == old(vars)
      ensures file.Some? ==> vars == LoadedEnv(old(vars), file.value)
    {
      if file.None? {
        return;
      }
      var lines := file.value;
      ghost var initial := vars;
      for n := 0 to |lines|
        invariant vars == LoadedEnv(initial, lines[..n])
      {
        var line := lines[n];
        assert lines[..n + 1] == lines[..n] + [line];
        ghost var expected := ApplyLine(vars, line);
        var i := IndexOf(line, "=");
        if i >= 0 {
          var key := TrimSpace(line[..i]);
          var value := TrimSpace(line[i + 1..]);
          assert EnvEntry(line) == Some(Entry(key, value));
          if Getenv(key) == "" {
            var _ := Setenv(key, value);
          }
        }
        assert vars == expected;
      }
      assert lines[..|lines|] == lines;
    }
  }

  // ------------------------------------------------------------------ what loading does

  /** A written `key=value` line reads back as its key and value. */
  lemma EnvEntryOf(key: string, value: string)
    requires IsTrimmed(key) && IsTrimmed(value) && '=' !in key
    ensures EnvEntry(key + "=" + value) == Some(Entry(key, value))
  {
    var line := key + "=" + value;
    ContainsChar(key, '=');
    NoEarlierOccurrence(key, "=", "=" + value);
    assert line == key + ("=" + value);
    assert IsAt(line, "=", |key|);
    assert IndexOf(line, "=") == |key|;
    assert line[..|key|] == key;
    assert line[|key| + 1..] == value;
    TrimSpaceTrimmed(key);
    TrimSpaceTrimmed(value);
  }

  /** The line sets `key` to a non-empty value, provided the variable is still unset or empty. */
  predicate SetsValue(line: string, key: string) {
    var e := EnvEntry(line);
    e.Some? && e.value.key == key && e.value.value != "" && Settable(key, e.value.value)
  }

  /** No line of `lines[lo..hi]` sets `key` to something non-empty. */
  predicate NoneSets(lines: seq<string>, key: string, lo: nat, hi: nat)
    requires lo <= hi <= |lines|
  {
    forall i :: lo <= i < hi ==> !SetsValue(lines[i], key)
  }

  /** The value the first line that sets `key` to something non-empty gives it, or empty. */
  function FirstValue(lines: seq<string>, key: string): string {
    if lines == [] then ""
    else if SetsValue(lines[0], key) then EnvEntry(lines[0]).value.value
    else FirstValue(lines[1..], key)
  }

  /** The value found comes from a line that sets `key` with no such line before it; none is found only when no line sets it. */
  lemma {:induction false} FirstValueIsFirst(lines: seq<string>, key: string)
    ensures FirstValue(lines, key) != "" ==>
      exists j :: 0 <= j < |lines| && SetsValue(lines[j], key) && FirstValue(lines, key) == EnvEntry(lines[j]).value.value &&
                  NoneSets(lines, key, 0, j)
    ensures FirstValue(lines, key) == "" ==> NoneSets(lines, key, 0, |lines|)
    decreases |lines|
  {
    if lines == [] {
    } else if SetsValue(lines[0], key) {
      assert NoneSets(lines, key, 0, 0);
    } else {
      var tail := lines[1..];
      FirstValueIsFirst(tail, key);
      NoneSetsCons(lines, key);
      if FirstValue(tail, key) != "" {
        var j :| 0 <= j < |tail| && SetsValue(tail[j], key) && FirstValue(tail, key) == EnvEntry(tail[j]).value.value &&
                 NoneSets(tail, key, 0, j);
        assert lines[j + 1] == tail[j];
      }
    }
  }

  /** A first line that does not set `key` shifts every prefix fact about `lines[1..]` by one. */
  lemma NoneSetsCons(lines: seq<string>, key: string)
    requires lines != [] && !SetsValue(lines[0], key)
    ensures forall j :: 0 <= j < |lines| - 1 ==> lines[1..][j] == lines[j + 1]
    ensures forall j :: 0 <= j <= |lines| - 1 && NoneSets(lines[1..], key, 0, j) ==> NoneSets(lines, key, 0, j + 1)
  {
  }

  lemma {:induction false} FirstValueSnoc(lines: seq<string>, line: string, key: string)
    ensures FirstValue(lines + [line], key) ==
      if FirstValue(lines, key) != "" then FirstValue(lines, key)
      else if SetsValue(line, key) then EnvEntry(line).value.value
      else ""
    decreases |lines|
  {
    if lines == [] {
      assert [line][1..] == [];
    } else {
      assert (lines + [line])[1..] == lines[1..] + [line];
      FirstValueSnoc(lines[1..], line, key);
    }
  }

  /** One line leaves a non-empty variable alone and gives an unset or empty one the non-empty value it sets. */
  lemma ApplyLineValue(vars: map<string, string>, line: string, key: string)
    ensures Lookup(ApplyLine(vars, line), key) ==
      if Lookup(vars, key) != "" then Lookup(vars, key)
      else if SetsValue(line, key) then EnvEntry(line).value.value
      else ""
  {
  }

  /** One line adds the key it names when the pair is acceptable, and removes none. */
  lemma ApplyLineKeys(vars: map<string, string>, line: string, key: string)
    ensures key in ApplyLine(vars, line) <==> key in vars || SetsKey(line, key)
  {
  }

  /**
   * After loading, a variable that had a non-empty value keeps it; any other
   * variable has the value of the first line that sets it to something
   * non-empty, or is still empty.
   */
  lemma {:induction false} LoadedValue(vars: map<string, string>, lines: seq<string>, key: string)
    ensures Lookup(LoadedEnv(vars, lines), key) ==
      if Lookup(vars, key) != "" then Lookup(vars, key) else FirstValue(lines, key)
    decreases |lines|
  {
    if lines != [] {
      var n := |lines| - 1;
      var pre := lines[..n];
      assert lines == pre + [lines[n]];
      LoadedValue(vars, pre, key);
      FirstValueSnoc(pre, lines[n], key);
      ApplyLineValue(LoadedEnv(vars, pre), lines[n], key);
    }
  }

  /** A variable that already had a non-empty value is never overwritten. */
  lemma LoadedKeeps(vars: map<string, string>, lines: seq<string>)
    ensures forall key :: Lookup(vars, key) != "" ==> Lookup(LoadedEnv(vars, lines), key) == Lookup(vars, key)
  {
    forall key | Lookup(vars, key) != "" ensures Lookup(LoadedEnv(vars, lines), key) == Lookup(vars, key) {
      LoadedValue(vars, lines, key);
    }
  }

  /** The line would set `key`, to anything, if the variable were unset or empty. */
  predicate SetsKey(line: string, key: string) {
    var e := EnvEntry(line);
    e.Some? && e.value.key == key && Settable(key, e.value.value)
  }

  /** Loading adds exactly the keys some acceptable line names, and removes none. */
  lemma {:induction false} LoadedKeys(vars: map<string, string>, lines: seq<string>, key: string)
    ensures key in LoadedEnv(vars, lines) <==> key in vars || NamesKey(lines, key)
    decreases |lines|
  {
    if lines != [] {
      var n := |lines| - 1;
      var pre := lines[..n];
      LoadedKeys(vars, pre, key);
      ApplyLineKeys(LoadedEnv(vars, pre), lines[n], key);
      NamesKeySnoc(lines, key);
    }
  }

  /** Some line of `lines` would set `key`. */
  predicate NamesKey(lines: seq<string>, key: string) {
    exists j :: 0 <= j < |lines| && SetsKey(lines[j], key)
  }

  lemma NamesKeySnoc(lines: seq<string>, key: string)
    requires lines != []
    ensures NamesKey(lines, key) <==> NamesKey(lines[..|lines| - 1], key) || SetsKey(lines[|lines| - 1], key)
  {
    var n := |lines| - 1;
    var pre := lines[..n];
    assert forall j :: 0 <= j < n ==> pre[j] == lines[j];
  }

  /** Lines without `=` change nothing. */
  lemma {:induction false} LoadedWithoutAssignments(vars: map<string, string>, lines: seq<string>)
    requires forall j :: 0 <= j < |lines| ==> !Contains(lines[j], "=")
    ensures LoadedEnv(vars, lines) == vars
    decreases |lines|
  {
    if lines != [] {
      LoadedWithoutAssignments(vars, lines[..|lines| - 1]);
    }
  }
}
