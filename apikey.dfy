/**
 * Discovery of the GEMINI_API_KEY credential: parsing `KEY=value` lines of a dotenv
 * file and choosing among the sources the script consults, in its order of precedence.
 *
 * A file is `Some(lines)` when it exists and can be opened, `None` otherwise. A read
 * error part-way through a file is the same as a file holding only the lines read
 * before it, because those lines were already scanned.
 */
module ApiKey {
  import opened Wrappers
  import opened PyStr

  const KeyName: string := "GEMINI_API_KEY"
  const KeyPrefix: string := KeyName + "="

  const Quote: char := '"'
  const Apostrophe: char := '\''

  /** The value part of a key line: whitespace, then every `"`, then every `'` removed from both ends. */
  function Unquote(v: string): string
  {
    StripChars(StripChars(Strip(v), {Quote}), {Apostrophe})
  }

  /** The key a single line provides, if any: a stripped line starting with the prefix, with a non-empty value. */
  function LineValue(raw: string): Option<string>
  {
    var line := Strip(raw);
    if StartsWith(line, KeyPrefix) then
      var value := Unquote(AfterFirst(line, '='));
      if value != [] then Some(value) else None
    else
      None
  }

  /** A key with nothing to strip at either end. */
  ghost predicate PlainKey(key: string)
  {
    && key != []
    && key[0] !in Whitespace + {Quote, Apostrophe}
    && key[|key| - 1] !in Whitespace + {Quote, Apostrophe}
  }

  /** Stripping leaves a string alone when neither end is a character to strip. */
  lemma StripNothing(s: string, cs: set<char>)
    requires s == [] || (s[0] !in cs && s[|s| - 1] !in cs)
    ensures StripChars(s, cs) == s
  {
    assert [] + s + [] == s;
    StripPadded([], s, [], cs);
  }

  /** A plain key in no quotes, in double quotes or in single quotes unquotes to itself. */
  lemma UnquoteQuoted(quote: string, key: string)
    requires quote == [] || quote == [Quote] || quote == [Apostrophe]
    requires PlainKey(key)
    ensures Unquote(quote + key + quote) == key
  {
    var value := quote + key + quote;
    StripNothing(value, Whitespace);
    if quote == [] {
      assert value == key;
      StripNothing(key, {Quote});
      StripNothing(key, {Apostrophe});
    } else if quote == [Quote] {
      StripPadded(quote, key, quote, {Quote});
      StripNothing(key, {Apostrophe});
    } else {
      StripNothing(value, {Quote});
      StripPadded(quote, key, quote, {Apostrophe});
    }
  }

  lemma KeyPrefixSplit(value: string)
    ensures AfterFirst(KeyPrefix + value, '=') == value
  {
    assert '=' !in KeyName;
    assert KeyPrefix + value == KeyName + ['='] + value;
    AfterFirstSplit(KeyName, '=', value);
  }

  lemma StripKeyLine(lead: string, core: string, trail: string)
    requires AllIn(lead, Whitespace) && AllIn(trail, Whitespace)
    requires core != [] && core[0] !in Whitespace && core[|core| - 1] !in Whitespace
    ensures Strip(lead + core + trail) == core
  {
    StripPadded(lead, core, trail, Whitespace);
  }

  /**
   * A key written as `GEMINI_API_KEY=key`, `GEMINI_API_KEY="key"` or `GEMINI_API_KEY='key'`,
   * with any whitespace around the line, is read back exactly.
   */
  lemma KeyLineRoundTrip(lead: string, quote: string, key: string, trail: string)
    requires AllIn(lead, Whitespace) && AllIn(trail, Whitespace)
    requires quote == [] || quote == [Quote] || quote == [Apostrophe]
    requires PlainKey(key)
    ensures LineValue(lead + KeyPrefix + quote + key + quote + trail) == Some(key)
  {
    var value := quote + key + quote;
    var core := KeyPrefix + value;
    var line := lead + KeyPrefix + quote + key + quote + trail;
    assert line == lead + core + trail;
    assert core[0] == 'G';
    assert core[|core| - 1] !in Whitespace by {
      assert core[|core| - 1] == value[|value| - 1];
      if quote == [] { assert value == key; } else { assert value[|value| - 1] == quote[0]; }
    }
    StripKeyLine(lead, core, trail);
    assert StartsWith(core, KeyPrefix) by { assert core[..|KeyPrefix|] == KeyPrefix; }
    KeyPrefixSplit(value);
    UnquoteQuoted(quote, key);
  }

  /** Lines with nothing after the `=`, or only a pair of quotes, give no key and are skipped. */
  lemma EmptyValuesSkipped()
    ensures LineValue("GEMINI_API_KEY=") == None
    ensures LineValue("GEMINI_API_KEY=\"\"") == None
  {
    StripNothing(KeyPrefix + [], Whitespace);
    KeyPrefixSplit([]);
    assert Unquote([]) == [];
    var quoted := [Quote, Quote];
    StripNothing(KeyPrefix + quoted, Whitespace);
    KeyPrefixSplit(quoted);
    StripNothing(quoted, Whitespace);
    StripPadded(quoted, [], [], {Quote});
    assert quoted + [] + [] == quoted;
    assert Unquote(quoted) == [];
    assert KeyPrefix + [] == "GEMINI_API_KEY=";
    assert KeyPrefix + quoted == "GEMINI_API_KEY=\"\"";
  }

  /** A key is a non-empty value taken from a line that starts with the prefix once stripped, and never begins or ends with `'`. */
  lemma LineValueShape(raw: string)
    ensures LineValue(raw).Some? ==> StartsWith(Strip(raw), KeyPrefix)
    ensures LineValue(raw).Some? ==> var v := LineValue(raw).value;
      v != [] && v[0] != Apostrophe && v[|v| - 1] != Apostrophe
  {
    var line := Strip(raw);
    StripShape(StripChars(Strip(AfterFirst(line, '=')), {Quote}), {Apostrophe});
  }

  /** What each line of a file provides, line by line. */
  function LineValues(lines: seq<string>): (vs: seq<Option<string>>)
    ensures |vs| == |lines|
  {
    if lines == [] then [] else [LineValue(lines[0])] + LineValues(lines[1..])
  }

  lemma {:induction false} LineValuesAt(lines: seq<string>, i: nat)
    requires i < |lines|
    ensures LineValues(lines)[i] == LineValue(lines[i])
  {
    if i > 0 {
      LineValuesAt(lines[1..], i - 1);
    }
  }

  /** The key a file provides: the value of its first line that provides one. */
  function FirstKey(lines: seq<string>): Option<string>
  {
    FirstSome(LineValues(lines))
  }

  /** A file's key is the value of its first key line; there is none exactly when no line is a key line. */
  lemma FirstKeyLine(lines: seq<string>)
    ensures FirstKey(lines).None? <==> forall i :: 0 <= i < |lines| ==> LineValue(lines[i]).None?
    ensures FirstKey(lines).Some? ==>
      exists i :: 0 <= i < |lines| && LineValue(lines[i]) == FirstKey(lines) &&
                  forall j :: 0 <= j < i ==> LineValue(lines[j]).None?
  {
    var vs := LineValues(lines);
    forall i | 0 <= i < |lines| ensures vs[i] == LineValue(lines[i]) {
      LineValuesAt(lines, i);
    }
  }

  /** What `_read_key_from_file` returns; a file that cannot be opened yields no key. */
  function FileKey(file: Option<seq<string>>): Option<string>
  {
    match file
    case None => None
    case Some(lines) => FirstKey(lines)
  }

  /** Scans the lines in order and returns at the first line that provides a key. */
  method ReadKeyFromFile(file: Option<seq<string>>) returns (key: Option<string>)
    ensures key == FileKey(file)
  {
    if file.None? {
      return None;
    }
    var lines := file.value;
    ghost var values := LineValues(lines);
    var i := 0;
    while i < |lines|
      invariant 0 <= i <= |lines|
      invariant forall j :: 0 <= j < i ==> values[j].None?
    {
      var value := LineValue(lines[i]);
      LineValuesAt(lines, i);
      if value.Some? {
        FirstSomeAt(values, i);
        return value;
      }
      i := i + 1;
    }
    return None;
  }

  /**
   * Everything `load_api_key` can consult. `envFile` is the file named by `--env-file`
   * when a non-empty path was given and exists; `environment` is the process variable.
   */
  datatype KeySources = KeySources(
    envFile: Option<seq<string>>,
    environment: Option<string>,
    localEnvLocal: Option<seq<string>>,  // ./.env.local
    localEnv: Option<seq<string>>,       // ./.env
    homeEnvLocal: Option<seq<string>>,   // ~/.env.local
    homeEnv: Option<seq<string>>)        // ~/.env

  /** The dotenv files tried after the environment, in the order they are tried. */
  function DotFiles(s: KeySources): seq<Option<seq<string>>>
  {
    [s.localEnvLocal, s.localEnv, s.homeEnvLocal, s.homeEnv]
  }

  /** An unset or empty environment variable is no key. */
  function EnvironmentKey(value: Option<string>): Option<string>
  {
    if value.Some? && value.value != [] then value else None
  }

  /** The key each source would yield on its own, in order of precedence. */
  function Candidates(s: KeySources): (cs: seq<Option<string>>)
    ensures |cs| == 6
  {
    var dot := DotFiles(s);
    [FileKey(s.envFile), EnvironmentKey(s.environment)] + seq(4, i requires 0 <= i < 4 => FileKey(dot[i]))
  }

  /** The first present value of a sequence of optional values. */
  function FirstSome(cs: seq<Option<string>>): (r: Option<string>)
    ensures r.None? <==> forall i :: 0 <= i < |cs| ==> cs[i].None?
    ensures r.Some? ==> exists i :: 0 <= i < |cs| && cs[i] == r && forall j :: 0 <= j < i ==> cs[j].None?
  {
    if cs == [] then None
    else if cs[0].Some? then cs[0]
    else
      var rest := FirstSome(cs[1..]);
      assert forall i :: 1 <= i < |cs| ==> cs[i] == cs[1..][i - 1];
      rest
  }

  lemma FirstSomeAt(cs: seq<Option<string>>, k: nat)
    requires k < |cs| && cs[k].Some?
    requires forall j :: 0 <= j < k ==> cs[j].None?
    ensures FirstSome(cs) == cs[k]
  {
  }

  /** The key the script ends up with: the first source, in order of precedence, that yields one. */
  function ResolveKey(s: KeySources): Option<string>
  {
    FirstSome(Candidates(s))
  }

  /** Tries the explicit file, then the environment, then the four dotenv files, returning at the first key. */
  method LoadApiKey(s: KeySources) returns (key: Option<string>)
    ensures key == ResolveKey(s)
  {
    ghost var cs := Candidates(s);
    if s.envFile.Some? {
      key := ReadKeyFromFile(s.envFile);
      if key.Some? {
        FirstSomeAt(cs, 0);
        return;
      }
    }
    if s.environment.Some? && s.environment.value != [] {
      FirstSomeAt(cs, 1);
      return s.environment;
    }
    var paths := DotFiles(s);
    for i := 0 to |paths|
      invariant forall j :: 0 <= j < 2 + i ==> cs[j].None?
    {
      if paths[i].Some? {
        key := ReadKeyFromFile(paths[i]);
        if key.Some? {
          FirstSomeAt(cs, 2 + i);
          return;
        }
      }
    }
    return None;
  }

  /** Every key a file yields is non-empty. */
  lemma FileKeyNonEmpty(file: Option<seq<string>>)
    ensures FileKey(file).Some? ==> FileKey(file).value != []
  {
    if FileKey(file).Some? {
      var lines := file.value;
      var vs := LineValues(lines);
      var n :| 0 <= n < |vs| && vs[n] == FileKey(file);
      LineValuesAt(lines, n);
      LineValueShape(lines[n]);
    }
  }

  /** Whatever is found is non-empty, so the caller's "not found" test is exactly `None`. */
  lemma ResolvedKeyNonEmpty(s: KeySources)
    ensures ResolveKey(s).Some? ==> ResolveKey(s).value != []
  {
    var cs := Candidates(s);
    if ResolveKey(s).Some? {
      var i :| 0 <= i < |cs| && cs[i] == ResolveKey(s);
      if i == 0 {
        FileKeyNonEmpty(s.envFile);
      } else if i >= 2 {
        assert cs[i] == FileKey(DotFiles(s)[i - 2]);
        FileKeyNonEmpty(DotFiles(s)[i - 2]);
      }
    }
  }

  /** A key in the explicit `--env-file` beats every other source. */
  lemma EnvFileWins(s: KeySources)
    requires FileKey(s.envFile).Some?
    ensures ResolveKey(s) == FileKey(s.envFile)
  {
    FirstSomeAt(Candidates(s), 0);
  }

  /** Without a key from `--env-file`, a non-empty environment variable beats every dotenv file. */
  lemma EnvironmentBeatsDotFiles(s: KeySources)
    requires FileKey(s.envFile).None?
    requires s.environment.Some? && s.environment.value != []
    ensures ResolveKey(s) == s.environment
  {
    FirstSomeAt(Candidates(s), 1);
  }

  /**
   * Otherwise, the first of `.env.local`, `.env`, `~/.env.local`, `~/.env` that
   * yields a key gives the key.
   */
  lemma DotFileOrder(s: KeySources, k: nat)
    requires FileKey(s.envFile).None? && EnvironmentKey(s.environment).None?
    requires k < 4 && FileKey(DotFiles(s)[k]).Some?
    requires forall j :: 0 <= j < k ==> FileKey(DotFiles(s)[j]).None?
    ensures ResolveKey(s) == FileKey(DotFiles(s)[k])
  {
    var cs := Candidates(s);
    assert cs[2 + k] == FileKey(DotFiles(s)[k]);
    forall j | 0 <= j < 2 + k ensures cs[j].None? {
      if j >= 2 { assert cs[j] == FileKey(DotFiles(s)[j - 2]); }
    }
    FirstSomeAt(cs, 2 + k);
  }

  /** No key is found exactly when every one of the six sources fails. */
  lemma NoKeyIff(s: KeySources)
    ensures ResolveKey(s).None? <==>
      && FileKey(s.envFile).None?
      && EnvironmentKey(s.environment).None?
      && forall k :: 0 <= k < 4 ==> FileKey(DotFiles(s)[k]).None?
  {
    var cs := Candidates(s);
    var dot := DotFiles(s);
    assert cs[0] == FileKey(s.envFile) && cs[1] == EnvironmentKey(s.environment);
    if ResolveKey(s).None? {
      forall k | 0 <= k < 4 ensures FileKey(dot[k]).None? {
        assert cs[2 + k] == FileKey(dot[k]);
      }
    }
    if && FileKey(s.envFile).None? && EnvironmentKey(s.environment).None?
       && forall k :: 0 <= k < 4 ==> FileKey(dot[k]).None?
    {
      forall i | 0 <= i < 6 ensures cs[i].None? {
        if i >= 2 { assert cs[i] == FileKey(dot[i - 2]); }
      }
    }
  }
}
