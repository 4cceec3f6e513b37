/**
  `_load_dotenv` of backend/src/app.py: reads `KEY=value` lines from a `.env`
  file into the process environment without overriding variables that are
  already set. The environment is an object whose map the loader updates in
  place; the file is given as its text, or `None` when it does not exist.
 */
module DotEnv {
  import opened Wrappers
  import Text

  predicate IsDoubleQuote(c: char) {
    c == '"'
  }

  predicate IsSingleQuote(c: char) {
    c == '\''
  }

  /** A key and value read from one line. */
  datatype Entry = Entry(key: string, value: string)

  /** The value as stored: stripped of whitespace, then of '"' at both ends, then of '\'' at both ends. */
  function Unquote(v: string): (r: string)
    ensures r == [] || (!IsSingleQuote(r[0]) && !IsSingleQuote(r[|r| - 1]))
    ensures |r| <= |v|
  {
    Text.StripChars(Text.StripChars(Text.Strip(v), IsDoubleQuote), IsSingleQuote)
  }

  /**
    What one line asks for: nothing for a blank line, a comment or a line
    without '='; otherwise the stripped text before the first '=' as the key
    and the unquoted rest as the value (so a value may itself hold '=').
   */
  function ParseLine(raw: string): (r: Option<Entry>)
    ensures r.Some? ==> Text.Strip(r.value.key) == r.value.key
  {
    var line := Text.Strip(raw);
    if line == [] || line[0] == '#' then
      None
    else
      var i := Text.FirstIndexIn(line, {'='});
      if i == |line| then
        None
      else
        Text.StripCharsIdempotent(line[..i], Text.IsSpace);
        Some(Entry(Text.Strip(line[..i]), Unquote(line[i + 1..])))
  }

  /** `os.environ` refuses a NUL character in a name or a value (ValueError). */
  predicate Rejected(e: Entry) {
    '\0' in e.key || '\0' in e.value
  }

  /** The entries of the lines of a file, in order. */
  function ParseLines(lines: seq<string>): (entries: seq<Option<Entry>>)
    ensures |entries| == |lines|
    ensures forall i :: 0 <= i < |lines| ==> entries[i] == ParseLine(lines[i])
  {
    seq(|lines|, i requires 0 <= i < |lines| => ParseLine(lines[i]))
  }

  /**
    The environment after applying `entries` in order to `env`. An entry with
    an empty key or a key already set is skipped; an entry the environment
    refuses raises, and the handler ends the load, keeping what was set.
   */
  function Loaded(env: map<string, string>, entries: seq<Option<Entry>>): map<string, string>
    decreases |entries|
  {
    if entries == [] then
      env
    else
      match entries[0]
      case None => Loaded(env, entries[1..])
      case Some(e) =>
        if e.key == "" || e.key in env then Loaded(env, entries[1..])
        else if Rejected(e) then env
        else Loaded(env[e.key := e.value], entries[1..])
  }

  /** The process environment. */
  class Environment {
    var vars: map<string, string>

    constructor (initial: map<string, string>)
      ensures vars == initial
    {
      vars := initial;
    }

    /** Loads the `.env` file whose text is `text`; a missing file changes nothing. */
    method LoadDotenv(text: Option<string>)
      modifies this
      ensures text.None? ==> vars == old(vars)
      ensures text.Some? ==> vars == Loaded(old(vars), ParseLines(Text.SplitLines(text.value)))
    {
      if text.None? {
        return;
      }
      var lines := Text.SplitLines(text.value);
      ghost var entries := ParseLines(lines);
      var i := 0;
      while i < |lines|
        invariant 0 <= i <= |lines|
        invariant Loaded(old(vars), entries) == Loaded(vars, entries[i..])
      {
        assert entries[i..][0] == entries[i] && entries[i..][1..] == entries[i + 1..];
        var entry := ParseLine(lines[i]);
        if entry.Some? {
          var e := entry.value;
          if e.key != "" && e.key !in vars {
            if Rejected(e) {
              return;
            }
            vars := vars[e.key := e.value];
          }
        }
        i := i + 1;
      }
    }
  }

  /** A line yields no entry exactly when it is blank, a comment, or holds no '='. */
  lemma ParseLineNone(raw: string)
    ensures var line := Text.Strip(raw);
      ParseLine(raw).None? <==> line == [] || line[0] == '#' || '=' !in line
  {
    var line := Text.Strip(raw);
    if line != [] && line[0] != '#' {
      var i := Text.FirstIndexIn(line, {'='});
      assert i < |line| <==> '=' in line;
    }
  }

  /** Blank lines, comments and lines without '=' leave the environment as it is. */
  lemma LoadedSkips(env: map<string, string>, raw: string, rest: seq<Option<Entry>>)
    requires var line := Text.Strip(raw); line == [] || line[0] == '#' || '=' !in line
    ensures Loaded(env, [ParseLine(raw)] + rest) == Loaded(env, rest)
  {
    ParseLineNone(raw);
    assert ([ParseLine(raw)] + rest)[1..] == rest;
  }

  /**
    A line `k=v` splits at its first '=': the key is `k` stripped and the value
    is `v` unquoted, whatever '=' characters `v` holds.
   */
  lemma ParseLineSplit(k: string, v: string)
    requires '=' !in k && k != [] && k[0] != '#'
    requires Text.Strip(k + "=" + v) == k + "=" + v
    ensures ParseLine(k + "=" + v) == Some(Entry(Text.Strip(k), Unquote(v)))
  {
    var line := k + "=" + v;
    Text.FirstIndexAfter(k, '=', v);
    assert line[0] == k[0];
    ParseLineAt(line, |k|);
    assert line[..|k|] == k;
    assert line[|k| + 1..] == v;
  }

  /** A stripped line that is no comment and whose first '=' is at `i` splits there. */
  lemma ParseLineAt(line: string, i: nat)
    requires Text.Strip(line) == line && line != [] && line[0] != '#'
    requires i < |line| && Text.FirstIndexIn(line, {'='}) == i
    ensures ParseLine(line) == Some(Entry(Text.Strip(line[..i]), Unquote(line[i + 1..])))
  {
  }

  /** Surrounding copies of a stripped character come off, and nothing else does. */
  lemma StripCharsWrapped(s: string, q: char, chars: char -> bool)
    requires chars(q)
    requires s == [] || (!chars(s[0]) && !chars(s[|s| - 1]))
    ensures Text.StripChars([q] + s + [q], chars) == s
  {
    var w := [q] + s + [q];
    var t := s + [q];
    assert w[1..] == t;
    if s == [] {
      assert Text.TrimStart(t, chars) == [];
    } else {
      assert t[0] == s[0] && t[..|s|] == s;
      assert Text.TrimStart(t, chars) == t;
      assert Text.TrimEnd(s, chars) == s;
    }
    assert Text.TrimStart(w, chars) == Text.TrimStart(t, chars);
    assert t[..|t| - 1] == s;
    assert Text.TrimEnd(t, chars) == Text.TrimEnd(s, chars);
  }

  /** A value in double or in single quotes is stored without them. */
  lemma UnquoteQuoted(s: string)
    requires s == [] || (s[0] != '"' && s[0] != '\'' && s[|s| - 1] != '"' && s[|s| - 1] != '\'')
    ensures Unquote("\"" + s + "\"") == s
    ensures Unquote("'" + s + "'") == s
  {
    UnquoteDoubleQuoted(s);
    UnquoteSingleQuoted(s);
  }

  lemma UnquoteDoubleQuoted(s: string)
    requires s == [] || (s[0] != '"' && s[0] != '\'' && s[|s| - 1] != '"' && s[|s| - 1] != '\'')
    ensures Unquote("\"" + s + "\"") == s
  {
    var dq := ['"'] + s + ['"'];
    assert "\"" + s + "\"" == dq;
    Text.StripCharsKeeps(dq, Text.IsSpace);
    assert Text.Strip(dq) == dq;
    StripCharsWrapped(s, '"', IsDoubleQuote);
    assert Text.StripChars(dq, IsDoubleQuote) == s;
    Text.StripCharsKeeps(s, IsSingleQuote);
  }

  lemma UnquoteSingleQuoted(s: string)
    requires s == [] || (s[0] != '"' && s[0] != '\'' && s[|s| - 1] != '"' && s[|s| - 1] != '\'')
    ensures Unquote("'" + s + "'") == s
  {
    var sq := ['\''] + s + ['\''];
    assert "'" + s + "'" == sq;
    Text.StripCharsKeeps(sq, Text.IsSpace);
    assert Text.Strip(sq) == sq;
    Text.StripCharsKeeps(sq, IsDoubleQuote);
    assert Text.StripChars(sq, IsDoubleQuote) == sq;
    StripCharsWrapped(s, '\'', IsSingleQuote);
  }

  /** Loading never changes or removes a variable that was set before. */
  lemma {:induction false} LoadedKeepsExisting(env: map<string, string>, entries: seq<Option<Entry>>)
    ensures forall k :: k in env ==> k in Loaded(env, entries) && Loaded(env, entries)[k] == env[k]
    decreases |entries|
  {
    if entries != [] {
      match entries[0]
      case None => LoadedKeepsExisting(env, entries[1..]);
      case Some(e) =>
        if e.key == "" || e.key in env {
          LoadedKeepsExisting(env, entries[1..]);
        } else if !Rejected(e) {
          LoadedKeepsExisting(env[e.key := e.value], entries[1..]);
        }
    }
  }

  /** The keys of the entries. */
  function KeysIn(entries: seq<Option<Entry>>): set<string> {
    if entries == [] then {}
    else (match entries[0] case Some(e) => {e.key} case None => {}) + KeysIn(entries[1..])
  }

  /** Every variable loading adds is a non-empty key of some entry of the file. */
  lemma {:induction false} LoadedNewKeys(env: map<string, string>, entries: seq<Option<Entry>>)
    ensures forall k :: k in Loaded(env, entries) && k !in env ==> k in KeysIn(entries) && k != ""
    decreases |entries|
  {
    if entries != [] {
      match entries[0]
      case None => LoadedNewKeys(env, entries[1..]);
      case Some(e) =>
        if e.key == "" || e.key in env {
          LoadedNewKeys(env, entries[1..]);
        } else if !Rejected(e) {
          LoadedNewKeys(env[e.key := e.value], entries[1..]);
        }
    }
  }

  /** No entry is one the environment refuses. */
  predicate Acceptable(entries: seq<Option<Entry>>) {
    forall j :: 0 <= j < |entries| && entries[j].Some? ==> !Rejected(entries[j].value)
  }

  /**
    The first entry that sets a key the environment lacks decides its value:
    later entries with the same key do not override it.
   */
  lemma {:induction false} LoadedFirstWins(env: map<string, string>, entries: seq<Option<Entry>>, i: int)
    requires 0 <= i < |entries| && entries[i].Some?
    requires entries[i].value.key != "" && entries[i].value.key !in env
    requires forall j :: 0 <= j < i && entries[j].Some? ==> entries[j].value.key != entries[i].value.key
    requires Acceptable(entries[..i + 1])
    ensures entries[i].value.key in Loaded(env, entries)
    ensures Loaded(env, entries)[entries[i].value.key] == entries[i].value.value
    decreases i
  {
    var e := entries[i].value;
    assert entries[..i + 1][0] == entries[0];
    if i == 0 {
      var env' := env[e.key := e.value];
      assert !Rejected(e);
      assert Loaded(env, entries) == Loaded(env', entries[1..]);
      LoadedKeepsExisting(env', entries[1..]);
    } else {
      var tail := entries[1..];
      assert tail[i - 1] == entries[i];
      assert tail[..i] == entries[..i + 1][1..];
      match entries[0]
      case None =>
        LoadedFirstWins(env, tail, i - 1);
      case Some(e0) =>
        if e0.key == "" || e0.key in env {
          LoadedFirstWins(env, tail, i - 1);
        } else {
          assert !Rejected(e0);
          LoadedFirstWins(env[e0.key := e0.value], tail, i - 1);
        }
    }
  }
}
