/** The Dispatcher stage (`start_transcribe_on_audio`): for each new audio
    object it decides, from the base name alone, whether the language is
    known, names a transcription job after the base name, and asks the
    transcription service to write the result under
    `RAW_PREFIX + base + "/"`. */
module Dispatcher {
  import opened Wrappers
  import opened PyStr
  import opened PyPath
  import opened Events

  datatype Config = Config(resultBucket: string, rawPrefix: string, langOptions: seq<string>)

  const DefaultLanguages: seq<string> := ["en-US", "en-GB", "fr-FR", "fr-CA"]

  /** `en-US,en-GB,fr-FR,fr-CA` */
  const DefaultLangOptions: string := Join(DefaultLanguages, ',')

  /** The configuration read at import: `RESULT_BUCKET` is required,
      `RAW_PREFIX` defaults to `raw/`, `LANG_OPTIONS` to
      `en-US,en-GB,fr-FR,fr-CA`. */
  function ConfigFromEnv(env: map<string, string>): (c: Option<Config>)
    ensures c.Some? <==> "RESULT_BUCKET" in env
    ensures c.Some? ==> c.value.resultBucket == env["RESULT_BUCKET"]
    ensures c.Some? && "RAW_PREFIX" in env ==> c.value.rawPrefix == env["RAW_PREFIX"]
    ensures c.Some? && "RAW_PREFIX" !in env ==> c.value.rawPrefix == "raw/"
    ensures c.Some? && "LANG_OPTIONS" in env ==> c.value.langOptions == ParseLangOptions(env["LANG_OPTIONS"])
    ensures c.Some? && "LANG_OPTIONS" !in env ==> c.value.langOptions == DefaultLanguages
  {
    if "RESULT_BUCKET" !in env then None
    else
      var raw := if "RAW_PREFIX" in env then env["RAW_PREFIX"] else "raw/";
      var langs := if "LANG_OPTIONS" in env then env["LANG_OPTIONS"] else DefaultLangOptions;
      DefaultLangOptionsParse();
      Some(Config(env["RESULT_BUCKET"], raw, ParseLangOptions(langs)))
  }

  // ---------------------------------------------------------------------
  // LANG_OPTIONS

  /** A candidate language as `LANG_OPTIONS` yields it: non-empty, without
      a comma, and without surrounding whitespace. */
  predicate CleanOption(o: string) {
    o != [] && ',' !in o && Strip(o, Whitespace) == o
  }

  /** `[x.strip() for x in parts if x.strip()]` */
  function StrippedEntries(parts: seq<string>): (opts: seq<string>)
    ensures |opts| <= |parts|
    ensures forall o :: o in opts ==> o != [] && Strip(o, Whitespace) == o
    ensures forall o :: o in opts <==> exists p :: p in parts && o == Strip(p, Whitespace) && o != []
  {
    if parts == [] then []
    else
      var t := Strip(parts[0], Whitespace);
      StripIdempotent(parts[0], Whitespace);
      (if t != [] then [t] else []) + StrippedEntries(parts[1..])
  }

  /** Trimming the entries of two lists is trimming each in turn. */
  lemma {:induction false} StrippedEntriesConcat(a: seq<string>, b: seq<string>)
    ensures StrippedEntries(a + b) == StrippedEntries(a) + StrippedEntries(b)
    decreases |a|
  {
    if a == [] {
      assert a + b == b;
    } else {
      var t := Strip(a[0], Whitespace);
      var head := if t != [] then [t] else [];
      assert (a + b)[0] == a[0] && (a + b)[1..] == a[1..] + b;
      assert StrippedEntries(a + b) == head + StrippedEntries(a[1..] + b);
      StrippedEntriesConcat(a[1..], b);
      assert head + (StrippedEntries(a[1..]) + StrippedEntries(b)) == (head + StrippedEntries(a[1..])) + StrippedEntries(b);
    }
  }

  /** `LANG_OPTIONS`: the comma-separated entries, trimmed, empty ones
      dropped, in their order. */
  function ParseLangOptions(s: string): (opts: seq<string>)
    ensures forall o :: o in opts ==> CleanOption(o)
    ensures forall o :: o in opts <==> exists p :: p in Split(s, ',') && o == Strip(p, Whitespace) && o != []
  {
    var parts := Split(s, ',');
    NoCommaSurvives(parts);
    StrippedEntries(parts)
  }

  lemma {:induction false} NoCommaSurvives(parts: seq<string>)
    requires forall p :: p in parts ==> ',' !in p
    ensures forall o :: o in StrippedEntries(parts) ==> ',' !in o
  {
    if parts != [] {
      assert parts[0] in parts;
      StripChars(parts[0], Whitespace);
      NoCommaSurvives(parts[1..]);
    }
  }

  lemma {:induction false} StrippedEntriesOfClean(opts: seq<string>)
    requires forall o :: o in opts ==> CleanOption(o)
    ensures StrippedEntries(opts) == opts
  {
    if opts != [] {
      assert opts[0] in opts;
      assert Strip(opts[0], Whitespace) == opts[0];
      StrippedEntriesOfClean(opts[1..]);
      assert [opts[0]] + opts[1..] == opts;
    }
  }

  /** Parsing gives back any list of clean entries written out with commas:
      `LANG_OPTIONS` round-trips through `",".join`. */
  lemma {:induction false} ParseJoin(opts: seq<string>)
    requires forall o :: o in opts ==> CleanOption(o)
    ensures ParseLangOptions(Join(opts, ',')) == opts
  {
    if opts == [] {
      assert Split([], ',') == [[]];
    } else {
      SplitJoin(opts, ',');
      StrippedEntriesOfClean(opts);
    }
  }

  /** A non-empty string of ASCII letters and `-` is a clean entry. */
  lemma {:induction false} LetterEntryClean(o: string)
    requires o != [] && forall k :: 0 <= k < |o| ==> o[k] == '-' || 'A' <= o[k] <= 'Z' || 'a' <= o[k] <= 'z'
    ensures CleanOption(o)
  {
    StripUnchanged(o, Whitespace);
  }

  lemma {:induction false} DefaultLanguagesClean()
    ensures forall o :: o in DefaultLanguages ==> CleanOption(o)
  {
    LetterEntryClean("en-US");
    LetterEntryClean("en-GB");
    LetterEntryClean("fr-FR");
    LetterEntryClean("fr-CA");
  }

  /** The default setting yields the four default candidate languages. */
  lemma {:induction false} DefaultLangOptionsParse()
    ensures ParseLangOptions(DefaultLangOptions) == DefaultLanguages
  {
    DefaultLanguagesClean();
    ParseJoin(DefaultLanguages);
  }

  // ---------------------------------------------------------------------
  // Language from the file name

  const SuffixSeparators: set<char> := {'-', '_', '.'}

  /** `t` ends with a separator followed by `token`, in any letter case. */
  predicate EndsWithTag(t: string, token: string) {
    |t| > |token| && t[|t| - |token| - 1] in SuffixSeparators && Lower(t[|t| - |token|..]) == token
  }

  /** The lower-cased group 1 of `(?i)(?:[-_.])(fr|eng|en)$` searched in
      `t`, the alternatives tried in that order. */
  function SuffixToken(t: string): (token: Option<string>)
    ensures token.Some? ==> EndsWithTag(t, token.value)
    ensures token.None? <==> !EndsWithTag(t, "fr") && !EndsWithTag(t, "eng") && !EndsWithTag(t, "en")
  {
    if EndsWithTag(t, "fr") then Some("fr")
    else if EndsWithTag(t, "eng") then Some("eng")
    else if EndsWithTag(t, "en") then Some("en")
    else None
  }

  /** `lang_from_name`: `fr-FR` for a `fr` suffix, `en-US` for `en` or
      `eng`, nothing otherwise. */
  function LangFromName(base: string): (code: Option<string>)
    ensures code.Some? ==> code.value == "fr-FR" || code.value == "en-US"
  {
    match SuffixToken(Strip(base, Whitespace))
    case None => None
    case Some(token) => Some(if token == "fr" then "fr-FR" else "en-US")
  }

  /** The tags `fr` and `en`/`eng` exclude each other (they end in
      different letters), so `lang_from_name` gives `fr-FR` exactly for a
      `fr` tag, `en-US` exactly for an `en` or `eng` tag, and nothing
      exactly when the stripped name has no tag. */
  lemma {:induction false} LangFromNameCodes(base: string)
    ensures var t := Strip(base, Whitespace);
            (LangFromName(base) == Some("fr-FR") <==> EndsWithTag(t, "fr")) &&
            (LangFromName(base) == Some("en-US") <==> EndsWithTag(t, "en") || EndsWithTag(t, "eng")) &&
            (LangFromName(base) == None <==> !EndsWithTag(t, "fr") && !EndsWithTag(t, "en") && !EndsWithTag(t, "eng"))
  {
    SuffixTokenCodes(Strip(base, Whitespace));
  }

  /** The token found is `fr` iff the string ends in an `fr` tag, and
      another token iff it ends in an `en` or `eng` tag. */
  lemma {:induction false} SuffixTokenCodes(t: string)
    ensures SuffixToken(t) == Some("fr") <==> EndsWithTag(t, "fr")
    ensures SuffixToken(t).Some? && SuffixToken(t) != Some("fr") <==> EndsWithTag(t, "en") || EndsWithTag(t, "eng")
  {
    if EndsWithTag(t, "fr") {
      assert Lower(t[|t| - 2..])[1] == LowerChar(t[|t| - 1]) == 'r';
      if |t| > 3 {
        assert Lower(t[|t| - 3..])[2] == LowerChar(t[|t| - 1]);
      }
    }
  }

  /** Only the last `|token| + 1` characters decide a tag. */
  lemma {:induction false} TagOfTail(t: string, tail: string, token: string)
    requires EndsWith(t, tail) && |tail| > |token|
    ensures EndsWithTag(t, token) <==> EndsWithTag(tail, token)
  {
    assert t[|t| - |token|..] == tail[|tail| - |token|..];
    assert t[|t| - |token| - 1] == tail[|tail| - |token| - 1];
  }

  /** A token at least as long as a tail that starts with a separator
      cannot match: a separator is not a letter. */
  lemma {:induction false} TagTooLong(t: string, tail: string, token: string)
    requires EndsWith(t, tail) && tail != [] && tail[0] in SuffixSeparators
    requires |token| >= |tail|
    requires forall k :: 0 <= k < |token| ==> 'a' <= token[k] <= 'z'
    ensures !EndsWithTag(t, token)
  {
    if |t| > |token| {
      var i := |token| - |tail|;
      assert Lower(t[|t| - |token|..])[i] == LowerChar(tail[0]) == tail[0];
    }
  }

  /** Behind a separator, the suffix token of a string is that of its
      tail. */
  lemma {:induction false} SuffixTokenOfTail(t: string, tail: string)
    requires EndsWith(t, tail) && tail != [] && tail[0] in SuffixSeparators
    ensures SuffixToken(t) == SuffixToken(tail)
  {
    if |tail| > 2 { TagOfTail(t, tail, "fr"); TagOfTail(t, tail, "en"); }
    else { TagTooLong(t, tail, "fr"); TagTooLong(t, tail, "en"); }
    if |tail| > 3 { TagOfTail(t, tail, "eng"); } else { TagTooLong(t, tail, "eng"); }
  }

  /** A separator and a token in any letter case: the token, lower-cased. */
  lemma {:induction false} SuffixTokenOfTag(sep: char, token: string)
    requires sep in SuffixSeparators
    requires Lower(token) == "fr" || Lower(token) == "eng" || Lower(token) == "en"
    ensures SuffixToken([sep] + token) == Some(Lower(token))
  {
    var tail := [sep] + token;
    assert tail[1..] == token;
    if Lower(token) == "eng" {
      assert Lower(token)[1] == 'n';
      assert Lower(tail[2..])[0] == LowerChar(token[1]) == 'n';
    }
  }

  /** Letters whose lower case is a token letter are not whitespace. */
  lemma {:induction false} TagNotWhitespace(sep: char, token: string)
    requires sep in SuffixSeparators
    requires Lower(token) == "fr" || Lower(token) == "eng" || Lower(token) == "en"
    ensures forall k :: 0 <= k < |[sep] + token| ==> ([sep] + token)[k] !in Whitespace
  {
    var tail := [sep] + token;
    forall k | 0 <= k < |tail| ensures tail[k] !in Whitespace {
      if k > 0 {
        assert tail[k] == token[k - 1];
        assert LowerChar(token[k - 1]) == Lower(token)[k - 1];
      }
    }
  }

  /** Any stem followed by `-`, `_` or `.` and `fr`, `en` or `eng` in any
      letter case (and any surrounding whitespace) gets that language. */
  lemma {:induction false} LangFromNameTagged(stem: string, sep: char, token: string)
    requires sep in SuffixSeparators
    requires Lower(token) == "fr" || Lower(token) == "eng" || Lower(token) == "en"
    ensures LangFromName(stem + [sep] + token) == Some(if Lower(token) == "fr" then "fr-FR" else "en-US")
  {
    var tail := [sep] + token;
    TagNotWhitespace(sep, token);
    assert stem + [sep] + token == stem + tail;
    StripKeepsTail(stem, tail, Whitespace);
    SuffixTokenOfTail(Strip(stem + tail, Whitespace), tail);
    SuffixTokenOfTag(sep, token);
  }

  /** A name whose last character is not whitespace and, lower-cased, is
      none of `r`, `n`, `g` (the last letters of the tokens) carries no
      language: `clip`, and every name ending in a digit. */
  lemma {:induction false} LangFromNameUntagged(base: string)
    requires base != [] && base[|base| - 1] !in Whitespace
    requires LowerChar(base[|base| - 1]) !in {'r', 'n', 'g'}
    ensures LangFromName(base) == None
  {
    var tail := [base[|base| - 1]];
    assert base[..|base| - 1] + tail == base;
    StripKeepsTail(base[..|base| - 1], tail, Whitespace);
    SuffixTokenUntagged(Strip(base, Whitespace));
  }

  /** A string whose last character, lower-cased, is none of `r`, `n`,
      `g` ends with no tag. */
  lemma {:induction false} SuffixTokenUntagged(t: string)
    requires t != [] && LowerChar(t[|t| - 1]) !in {'r', 'n', 'g'}
    ensures SuffixToken(t) == None
  {
    if |t| > 2 {
      assert Lower(t[|t| - 2..])[1] == LowerChar(t[|t| - 1]);
    }
    if |t| > 3 {
      assert Lower(t[|t| - 3..])[2] == LowerChar(t[|t| - 1]);
    }
  }

  // ---------------------------------------------------------------------
  // Job names

  /** The characters `safe_job_name` keeps: `[A-Za-z0-9_-]`. */
  predicate JobChar(c: char) {
    'A' <= c <= 'Z' || 'a' <= c <= 'z' || '0' <= c <= '9' || c == '_' || c == '-'
  }

  /** The index of the first character of `s` at or after `i` in
      `[A-Za-z0-9_-]` (or `|s|`): where a run of other characters ends. */
  function RunEnd(s: string, i: nat): (n: nat)
    requires i <= |s|
    ensures i <= n <= |s|
    ensures n < |s| ==> JobChar(s[n])
    decreases |s| - i
  {
    if i == |s| || JobChar(s[i]) then i else RunEnd(s, i + 1)
  }

  /** Every character a run skips is outside `[A-Za-z0-9_-]`. */
  lemma {:induction false} RunEndSkips(s: string, i: nat, k: nat)
    requires i <= k && i <= |s| && k < RunEnd(s, i)
    ensures !JobChar(s[k])
    decreases |s| - i
  {
    if k > i {
      RunEndSkips(s, i + 1, k);
    }
  }

  /** The substitution of `s[i..]`: allowed characters are copied, and a
      maximal run of other characters becomes one `-`. */
  function SubstFrom(s: string, i: nat): string
    requires i <= |s|
    decreases |s| - i
  {
    if i == |s| then []
    else if JobChar(s[i]) then [s[i]] + SubstFrom(s, i + 1)
    else "-" + SubstFrom(s, RunEnd(s, i + 1))
  }

  /** `re.sub(r'[^A-Za-z0-9_-]+', '-', s)` */
  function Substitute(s: string): string {
    SubstFrom(s, 0)
  }

  /** The prefix of a job name: `re.sub(...).strip('-')[:100]`. */
  function Sanitize(base: string): (x: string)
    ensures |x| <= 100
    ensures x != [] ==> x[0] != '-'
  {
    var subst := Substitute(base);
    var stripped := Strip(subst, {'-'});
    StripChars(subst, {'-'});
    if |stripped| <= 100 then stripped else stripped[..100]
  }

  /** The prefix holds only characters of `[A-Za-z0-9_-]`. */
  lemma {:induction false} SanitizeChars(base: string)
    ensures forall k :: 0 <= k < |Sanitize(base)| ==> JobChar(Sanitize(base)[k])
  {
    var subst := Substitute(base);
    StripChars(subst, {'-'});
    SubstFromChars(base, 0);
  }

  /** The substitution leaves only characters of `[A-Za-z0-9_-]`. */
  lemma {:induction false} SubstFromChars(s: string, i: nat)
    requires i <= |s|
    ensures forall c :: c in SubstFrom(s, i) ==> JobChar(c)
    decreases |s| - i
  {
    if i < |s| {
      if JobChar(s[i]) {
        SubstFromChars(s, i + 1);
      } else {
        SubstFromChars(s, RunEnd(s, i + 1));
      }
    }
  }

  /** A string of allowed characters is left alone by the substitution. */
  lemma {:induction false} SubstFromAllowed(s: string, i: nat)
    requires i <= |s|
    requires forall k :: 0 <= k < |s| ==> JobChar(s[k])
    ensures SubstFrom(s, i) == s[i..]
    decreases |s| - i
  {
    if i < |s| {
      SubstFromAllowed(s, i + 1);
      assert SubstFrom(s, i) == [s[i]] + SubstFrom(s, i + 1);
      assert s[i..] == [s[i]] + s[i + 1..];
    }
  }

  /** The run starting at `i` ends at `n` when everything in between is
      disallowed and `s[n]` (if any) is allowed. */
  lemma {:induction false} RunEndIs(s: string, i: nat, n: nat)
    requires i <= n <= |s|
    requires forall k :: i <= k < n ==> !JobChar(s[k])
    requires n == |s| || JobChar(s[n])
    ensures RunEnd(s, i) == n
    decreases n - i
  {
    if i < n {
      RunEndIs(s, i + 1, n);
    }
  }

  /** A run ends at the same place in `b` as in `a + b`, shifted by `|a|`. */
  lemma {:induction false} RunEndShift(a: string, b: string, j: nat)
    requires j <= |b|
    ensures RunEnd(a + b, |a| + j) == |a| + RunEnd(b, j)
    decreases |b| - j
  {
    var s := a + b;
    assert j < |b| ==> s[|a| + j] == b[j];
    if j < |b| && !JobChar(b[j]) {
      RunEndShift(a, b, j + 1);
    }
  }

  /** A run that stops inside `p` stops there whatever follows `p`. */
  lemma {:induction false} RunEndPrefix(p: string, tail: string, i: nat)
    requires i < |p| && JobChar(p[|p| - 1])
    ensures RunEnd(p + tail, i) == RunEnd(p, i)
    decreases |p| - i
  {
    var s := p + tail;
    assert s[i] == p[i];
    if !JobChar(p[i]) {
      RunEndPrefix(p, tail, i + 1);
    }
  }

  /** What follows a prefix is substituted on its own. */
  lemma {:induction false} SubstFromShift(a: string, b: string, j: nat)
    requires j <= |b|
    ensures SubstFrom(a + b, |a| + j) == SubstFrom(b, j)
    decreases |b| - j
  {
    var s := a + b;
    if j < |b| {
      var c := b[j];
      assert s[|a| + j] == c;
      if JobChar(c) {
        SubstFromShift(a, b, j + 1);
        assert SubstFrom(s, |a| + j) == [c] + SubstFrom(s, |a| + j + 1);
      } else {
        RunEndShift(a, b, j + 1);
        var n := RunEnd(b, j + 1);
        SubstFromShift(a, b, n);
        assert SubstFrom(s, |a| + j) == "-" + SubstFrom(s, |a| + n);
      }
    }
  }

  /** A run right after `p` ends where `q` begins. */
  lemma {:induction false} RunEndAfter(p: string, run: string, q: string)
    requires run != [] && forall k :: 0 <= k < |run| ==> !JobChar(run[k])
    requires q == [] || JobChar(q[0])
    ensures RunEnd(p + run + q, |p| + 1) == |p| + |run|
  {
    var s := p + run + q;
    var e := |p| + |run|;
    forall k | |p| + 1 <= k < e ensures !JobChar(s[k]) {
      assert s[k] == run[k - |p|];
    }
    assert e < |s| ==> s[e] == q[0];
    RunEndIs(s, |p| + 1, e);
  }

  /** A run right after `p` becomes one `-` before the substitution of
      what follows it. */
  lemma {:induction false} RunSplitsStart(p: string, run: string, q: string)
    requires run != [] && forall k :: 0 <= k < |run| ==> !JobChar(run[k])
    requires q == [] || JobChar(q[0])
    ensures SubstFrom(p + run + q, |p|) == "-" + Substitute(q)
  {
    var s := p + run + q;
    assert SubstFrom(s, |p|) == "-" + SubstFrom(s, |p| + |run|) by {
      assert s[|p|] == run[0];
      RunEndAfter(p, run, q);
    }
    SubstFromShift(p + run, q, 0);
    assert SubstFrom(s, |p + run| + 0) == Substitute(q);
  }

  /** The substitution of `p + run + q` from position `i` of `p`: that of
      `p`, one `-`, and that of `q`. */
  ghost predicate RunSplits(p: string, run: string, q: string, i: nat)
    requires i <= |p|
  {
    SubstFrom(p + run + q, i) == SubstFrom(p, i) + "-" + Substitute(q)
  }

  lemma {:induction false} RunSplitsKeep(p: string, run: string, q: string, i: nat)
    requires i < |p| && JobChar(p[i])
    requires RunSplits(p, run, q, i + 1)
    ensures RunSplits(p, run, q, i)
  {
    var s := p + run + q;
    assert s[i] == p[i];
    var a, b := SubstFrom(p, i + 1), Substitute(q);
    assert SubstFrom(s, i) == [p[i]] + SubstFrom(s, i + 1);
    assert SubstFrom(p, i) == [p[i]] + a;
    assert [p[i]] + ((a + "-") + b) == (([p[i]] + a) + "-") + b;
  }

  lemma {:induction false} RunSplitsSkip(p: string, run: string, q: string, i: nat)
    requires i < |p| && !JobChar(p[i]) && JobChar(p[|p| - 1])
    requires RunEnd(p, i + 1) < |p| && RunSplits(p, run, q, RunEnd(p, i + 1))
    ensures RunSplits(p, run, q, i)
  {
    var s := p + run + q;
    assert s == p + (run + q);
    assert s[i] == p[i];
    RunEndPrefix(p, run + q, i + 1);
    var n := RunEnd(p, i + 1);
    var a, b := SubstFrom(p, n), Substitute(q);
    assert SubstFrom(s, i) == "-" + SubstFrom(s, n);
    assert SubstFrom(s, n) == (a + "-") + b;
    assert SubstFrom(p, i) == "-" + a;
    assert "-" + ((a + "-") + b) == (("-" + a) + "-") + b;
  }

  lemma {:induction false} SubstFromRun(p: string, run: string, q: string, i: nat)
    requires run != [] && forall k :: 0 <= k < |run| ==> !JobChar(run[k])
    requires p == [] || JobChar(p[|p| - 1])
    requires q == [] || JobChar(q[0])
    requires i <= |p|
    ensures RunSplits(p, run, q, i)
    decreases |p| - i
  {
    if i == |p| {
      RunSplitsStart(p, run, q);
    } else if JobChar(p[i]) {
      SubstFromRun(p, run, q, i + 1);
      RunSplitsKeep(p, run, q, i);
    } else {
      RunEndPrefix(p, [], i + 1);
      assert p + [] == p;
      if RunEnd(p, i + 1) == |p| {
        RunEndSkips(p, i + 1, |p| - 1);
      }
      SubstFromRun(p, run, q, RunEnd(p, i + 1));
      RunSplitsSkip(p, run, q, i);
    }
  }

  /** A maximal run of disallowed characters between `p` and `q` turns
      into a single `-`: `re.sub` treats the two sides independently. */
  lemma {:induction false} SubstituteRun(p: string, run: string, q: string)
    requires run != [] && forall k :: 0 <= k < |run| ==> !JobChar(run[k])
    requires p == [] || JobChar(p[|p| - 1])
    requires q == [] || JobChar(q[0])
    ensures Substitute(p + run + q) == Substitute(p) + "-" + Substitute(q)
  {
    SubstFromRun(p, run, q, 0);
  }

  /** A string of allowed characters is left alone by the substitution. */
  lemma {:induction false} SubstituteAllowed(s: string)
    requires forall k :: 0 <= k < |s| ==> JobChar(s[k])
    ensures Substitute(s) == s
  {
    SubstFromAllowed(s, 0);
  }

  /** A base that is already a valid job-name prefix is kept as it is. */
  lemma {:induction false} SanitizeFixpoint(base: string)
    requires forall k :: 0 <= k < |base| ==> JobChar(base[k])
    requires base == [] || (base[0] != '-' && base[|base| - 1] != '-')
    requires |base| <= 100
    ensures Sanitize(base) == base
  {
    SubstituteAllowed(base);
    StripUnchanged(base, {'-'});
  }

  /** Sanitizing is not idempotent in general: cutting at 100 characters
      can leave a trailing `-`, which a second pass strips. */
  lemma {:induction false} SanitizeTruncationLeavesDash()
    ensures var b := seq(99, _ => 'a') + "!b";
            Sanitize(b) == seq(99, _ => 'a') + "-" && Sanitize(Sanitize(b)) != Sanitize(b)
  {
    var a := seq(99, _ => 'a');
    var b := a + "!b";
    SubstituteAllowed(a);
    SubstituteAllowed("b");
    assert b == a + "!" + "b";
    SubstituteRun(a, "!", "b");
    var subst := a + "-b";
    assert Substitute(b) == subst;
    StripUnchanged(subst, {'-'});
    assert subst[..100] == a + "-";
    var once := a + "-";
    SubstituteAllowed(once);
    var again := Strip(once, {'-'});
    assert once[|once| - 1] == '-';
    assert again != once;
  }

  /** The local time `time.strftime` reads (years of four digits). */
  datatype Clock = Clock(year: nat, month: nat, day: nat, hour: nat, minute: nat, second: nat)

  type LocalTime = c: Clock | 1000 <= c.year <= 9999 && 1 <= c.month <= 12 && 1 <= c.day <= 31 &&
                              c.hour < 24 && c.minute < 60 && c.second <= 61
    witness Clock(1970, 1, 1, 0, 0, 0)

  /** `uuid.uuid4().hex`: 32 lower-case hexadecimal digits. */
  type Uuid = h: string | |h| == 32 && forall k :: 0 <= k < |h| ==> IsHexDigit(h[k])
    witness seq(32, _ => '0')

  /** `time.strftime('%Y%m%d-%H%M%S')` */
  function Timestamp(t: LocalTime): (s: string)
    ensures |s| == 15 && s[8] == '-'
  {
    Digits(t.year, 4) + Digits(t.month, 2) + Digits(t.day, 2) + "-" +
    Digits(t.hour, 2) + Digits(t.minute, 2) + Digits(t.second, 2)
  }

  /** Apart from the `-` between date and time, a timestamp is digits. */
  lemma {:induction false} TimestampDigits(t: LocalTime)
    ensures forall k :: 0 <= k < 15 && k != 8 ==> IsDigit(Timestamp(t)[k])
  {
    DigitsAreDigits(t.year, 4);
    DigitsAreDigits(t.month, 2);
    DigitsAreDigits(t.day, 2);
    DigitsAreDigits(t.hour, 2);
    DigitsAreDigits(t.minute, 2);
    DigitsAreDigits(t.second, 2);
  }

  /** `safe_job_name(base)` at local time `now` with random `id`:
      the sanitized prefix, `-`, the timestamp, `-`, and the first six
      hexadecimal digits of the UUID. */
  function JobName(base: string, now: LocalTime, id: Uuid): (name: string)
    ensures |name| == |Sanitize(base)| + 23
  {
    (Sanitize(base) + "-") + (Timestamp(now) + "-" + id[..6])
  }

  /** A job name is at most 123 characters long and starts with the
      sanitized base name and a `-`. */
  lemma {:induction false} JobNamePrefix(base: string, now: LocalTime, id: Uuid)
    ensures var name := JobName(base, now, id);
            |name| <= 123 && StartsWith(name, Sanitize(base) + "-")
  {
    var prefix := Sanitize(base) + "-";
    assert JobName(base, now, id)[..|prefix|] == prefix;
  }

  /** A job name is at most 123 characters of `[A-Za-z0-9_-]` and starts
      with the sanitized base name and a `-`. */
  lemma {:induction false} JobNameShape(base: string, now: LocalTime, id: Uuid)
    ensures var name := JobName(base, now, id);
            |name| <= 123 && StartsWith(name, Sanitize(base) + "-") &&
            forall c :: c in name ==> JobChar(c)
  {
    var prefix := Sanitize(base) + "-";
    var stamp := Timestamp(now);
    var hex := id[..6];
    var name := JobName(base, now, id);
    JobNamePrefix(base, now, id);
    assert name == prefix + (stamp + "-" + hex);
    assert forall c :: c in prefix ==> JobChar(c) by {
      SanitizeChars(base);
    }
    assert forall c :: c in stamp ==> JobChar(c) by {
      TimestampDigits(now);
    }
    assert forall c :: c in hex ==> JobChar(c) by {
      forall c | c in hex ensures JobChar(c) {
        assert c in id;
      }
    }
  }

  // ---------------------------------------------------------------------
  // The transcription request

  /** The parameter names of `start_transcription_job` the stage uses. */
  datatype Param =
    | TranscriptionJobName | Media | MediaFormat | OutputBucketName | OutputKey | Settings
    | LanguageCode | IdentifyLanguage | LanguageOptions

  /** A value in the request dictionary. */
  datatype Value = Str(s: string) | Bool(b: bool) | StrList(items: seq<string>) | Dict(entries: map<string, Value>)

  const CommonParams: set<Param> :=
    {TranscriptionJobName, Media, MediaFormat, OutputBucketName, OutputKey, Settings}

  /** The request dictionary for the audio object `key` in `bucket`, for
      a job called `name`, with the language `code` the name gives (if
      any). */
  function Request(cfg: Config, bucket: string, key: string, name: string, code: Option<string>): map<Param, Value> {
    var common := map[
      TranscriptionJobName := Str(name),
      Media := Dict(map["MediaFileUri" := Str("s3://" + bucket + "/" + key)]),
      MediaFormat := Str("mp3"),
      OutputBucketName := Str(cfg.resultBucket),
      OutputKey := Str(cfg.rawPrefix + BaseName(key) + "/"),
      Settings := Dict(map[])
    ];
    match code
    case Some(c) => common[LanguageCode := Str(c)]
    case None => common[IdentifyLanguage := Bool(true)][LanguageOptions := StrList(cfg.langOptions)]
  }

  /** The request `start_job` submits for the audio object `key` in
      `bucket` at local time `now` with UUID `id`. */
  function JobRequest(cfg: Config, bucket: string, key: string, now: LocalTime, id: Uuid): map<Param, Value> {
    var base := BaseName(key);
    Request(cfg, bucket, key, JobName(base, now, id), LangFromName(base))
  }

  /** The request carries a language code exactly when one is given, and
      the identification settings (with every configured option) exactly
      when it is not. */
  lemma {:induction false} RequestLanguage(cfg: Config, bucket: string, key: string, name: string, code: Option<string>)
    ensures var r := Request(cfg, bucket, key, name, code);
            r.Keys == CommonParams + (if code.Some? then {LanguageCode} else {IdentifyLanguage, LanguageOptions}) &&
            (code.Some? ==> r[LanguageCode] == Str(code.value)) &&
            (code.None? ==> r[IdentifyLanguage] == Bool(true) && r[LanguageOptions] == StrList(cfg.langOptions))
  {
  }

  /** `LanguageCode` and `IdentifyLanguage` are never both present, nor
      both absent, and the options travel with `IdentifyLanguage`. */
  lemma {:induction false} RequestLanguageXor(cfg: Config, bucket: string, key: string, name: string, code: Option<string>)
    ensures var r := Request(cfg, bucket, key, name, code);
            (LanguageCode in r <==> IdentifyLanguage !in r) && (LanguageOptions in r <==> IdentifyLanguage in r)
  {
    RequestLanguage(cfg, bucket, key, name, code);
  }

  /** The transcript of `key` is written to the result bucket under
      `RAW_PREFIX + base + "/"`, the media is `s3://bucket/key` in MP3. */
  lemma {:induction false} RequestOutput(cfg: Config, bucket: string, key: string, name: string, code: Option<string>)
    ensures var r := Request(cfg, bucket, key, name, code);
            OutputBucketName in r && r[OutputBucketName] == Str(cfg.resultBucket) &&
            OutputKey in r && r[OutputKey] == Str(cfg.rawPrefix + BaseName(key) + "/") &&
            Media in r && r[Media] == Dict(map["MediaFileUri" := Str("s3://" + bucket + "/" + key)]) &&
            MediaFormat in r && r[MediaFormat] == Str("mp3") &&
            TranscriptionJobName in r && r[TranscriptionJobName] == Str(name)
  {
  }

  /** The request names the job `name` and carries a language code
      exactly when one is given. */
  lemma {:induction false} RequestNamed(cfg: Config, bucket: string, key: string, name: string, code: Option<string>)
    ensures var r := Request(cfg, bucket, key, name, code);
            TranscriptionJobName in r && r[TranscriptionJobName] == Str(name) && (LanguageCode in r <==> code.Some?)
  {
  }

  /** The submitted job is named after the object's base name, within
      Transcribe's 200-character limit, and carries a language code exactly
      when the base name has a language suffix. */
  lemma {:induction false} JobRequestShape(cfg: Config, bucket: string, key: string, now: LocalTime, id: Uuid)
    ensures var r := JobRequest(cfg, bucket, key, now, id);
            var base := BaseName(key);
            TranscriptionJobName in r && r[TranscriptionJobName].Str? &&
            |r[TranscriptionJobName].s| <= 123 &&
            StartsWith(r[TranscriptionJobName].s, Sanitize(base) + "-") &&
            (LanguageCode in r <==> LangFromName(base).Some?)
  {
    var base := BaseName(key);
    var name := JobName(base, now, id);
    var code := LangFromName(base);
    JobNamePrefix(base, now, id);
    RequestNamed(cfg, bucket, key, name, code);
  }

  /** One `start_job` call: the record it is for, and what `time.strftime`
      and `uuid.uuid4` returned during it. */
  datatype Call = Call(rec: Record, now: LocalTime, id: Uuid)

  /** The calls for the records `recs`, in order, when the clock and the
      UUID generator have been read `first` times before: the `k`-th call
      sees `clock(first + k)` and `uuids(first + k)`. */
  function Calls(recs: seq<Record>, clock: nat -> LocalTime, uuids: nat -> Uuid, first: nat): (calls: seq<Call>)
    ensures |calls| == |recs|
  {
    if recs == [] then []
    else
      var n := |recs| - 1;
      Calls(recs[..n], clock, uuids, first) + [Call(recs[n], clock(first + n), uuids(first + n))]
  }

  /** The `k`-th call is for the `k`-th record and sees the `(first + k)`-th
      readings. */
  lemma {:induction false} CallsAt(recs: seq<Record>, clock: nat -> LocalTime, uuids: nat -> Uuid, first: nat, k: nat)
    requires k < |recs|
    ensures Calls(recs, clock, uuids, first)[k] == Call(recs[k], clock(first + k), uuids(first + k))
  {
    var n := |recs| - 1;
    if k < n {
      CallsAt(recs[..n], clock, uuids, first, k);
      assert recs[..n][k] == recs[k];
    }
  }

  /** The calls for two runs of records are those of the first run followed
      by those of the second, which read the clock after the first run
      did. */
  lemma {:induction false} CallsConcat(a: seq<Record>, b: seq<Record>, clock: nat -> LocalTime, uuids: nat -> Uuid, first: nat)
    ensures Calls(a + b, clock, uuids, first) == Calls(a, clock, uuids, first) + Calls(b, clock, uuids, first + |a|)
    decreases |b|
  {
    if b == [] {
      assert a + b == a;
    } else {
      var n := |b| - 1;
      var init := b[..n];
      CallsConcat(a, init, clock, uuids, first);
      assert (a + b)[..|a + b| - 1] == a + init;
      assert (a + b)[|a + b| - 1] == b[n];
    }
  }

  /** `f` applied to every element of `xs`, in order. */
  function Each<A, B>(f: A -> B, xs: seq<A>): (ys: seq<B>)
    ensures |ys| == |xs|
  {
    if xs == [] then [] else Each(f, xs[..|xs| - 1]) + [f(xs[|xs| - 1])]
  }

  /** The `k`-th result is `f` of the `k`-th element. */
  lemma {:induction false} EachAt<A, B>(f: A -> B, xs: seq<A>, k: nat)
    requires k < |xs|
    ensures Each(f, xs)[k] == f(xs[k])
  {
    var n := |xs| - 1;
    if k < n {
      EachAt(f, xs[..n], k);
      assert xs[..n][k] == xs[k];
    }
  }

  /** Mapping over two runs is mapping over each. */
  lemma {:induction false} EachConcat<A, B>(f: A -> B, xs: seq<A>, ys: seq<A>)
    ensures Each(f, xs + ys) == Each(f, xs) + Each(f, ys)
    decreases |ys|
  {
    if ys == [] {
      assert xs + ys == xs;
    } else {
      var n := |ys| - 1;
      EachConcat(f, xs, ys[..n]);
      assert (xs + ys)[..|xs + ys| - 1] == xs + ys[..n];
      assert (xs + ys)[|xs + ys| - 1] == ys[n];
    }
  }

  /** One more call at the end: its result comes last, and the call
      reads the clock after all the earlier ones. */
  lemma {:induction false} EachCallsSnoc<M>(f: Call -> M, done: seq<Record>, rec: Record, clock: nat -> LocalTime, uuids: nat -> Uuid, first: nat)
    ensures |Each(f, Calls(done, clock, uuids, first))| == |done|
    ensures Each(f, Calls(done + [rec], clock, uuids, first)) ==
            Each(f, Calls(done, clock, uuids, first)) + [f(Call(rec, clock(first + |done|), uuids(first + |done|)))]
  {
    var more := done + [rec];
    assert more[..|more| - 1] == done;
    assert more[|more| - 1] == rec;
    var call := Call(rec, clock(first + |done|), uuids(first + |done|));
    var calls := Calls(done, clock, uuids, first);
    assert Calls(more, clock, uuids, first) == calls + [call];
    assert (calls + [call])[..|calls|] == calls;
  }

  /** Finishing message `i` appends the results for its S3 records, whose
      calls read the clock after all the earlier ones. */
  lemma {:induction false} EachCallsMessage<M>(f: Call -> M, msgs: seq<Body>, i: nat, clock: nat -> LocalTime, uuids: nat -> Uuid)
    requires i < |msgs|
    ensures var done := Selected(msgs[..i]);
            Each(f, Calls(Selected(msgs[..i + 1]), clock, uuids, 0)) ==
            Each(f, Calls(done, clock, uuids, 0)) +
            Each(f, Calls(S3Records(RecordsOf(msgs[i])), clock, uuids, |done|))
  {
    var done := Selected(msgs[..i]);
    var more := S3Records(RecordsOf(msgs[i]));
    SelectedStep(msgs, i);
    assert Selected(msgs[..i + 1]) == done + more;
    CallsConcat(done, more, clock, uuids, 0);
    EachConcat(f, Calls(done, clock, uuids, 0), Calls(more, clock, uuids, |done|));
  }

  /** The `k`-th result for a run of records is `f` of the `k`-th call. */
  lemma {:induction false} EachCallsAt<M>(f: Call -> M, recs: seq<Record>, clock: nat -> LocalTime, uuids: nat -> Uuid, k: nat)
    requires k < |recs|
    ensures Each(f, Calls(recs, clock, uuids, 0))[k] == f(Call(recs[k], clock(k), uuids(k)))
  {
    CallsAt(recs, clock, uuids, 0, k);
    EachAt(f, Calls(recs, clock, uuids, 0), k);
  }

  /** The request a call submits. */
  function Submission(cfg: Config): Call -> map<Param, Value> {
    (c: Call) => JobRequest(cfg, c.rec.bucket, c.rec.key, c.now, c.id)
  }

  /** The requests submitted for `calls`, in order. */
  function Requests(cfg: Config, calls: seq<Call>): seq<map<Param, Value>> {
    Each(Submission(cfg), calls)
  }

  /** The `k`-th request submitted for `recs` is the one `start_job` builds
      for the `k`-th record at the `k`-th clock reading with the `k`-th
      UUID. */
  lemma {:induction false} RequestsAt(cfg: Config, recs: seq<Record>, clock: nat -> LocalTime, uuids: nat -> Uuid, k: nat)
    requires k < |recs|
    ensures Requests(cfg, Calls(recs, clock, uuids, 0))[k] == JobRequest(cfg, recs[k].bucket, recs[k].key, clock(k), uuids(k))
  {
    EachCallsAt(Submission(cfg), recs, clock, uuids, k);
  }

  /** The results of `start` for the S3 records of `recs`, in order, the
      clock and UUID generator having been read `first` times before:
      what the inner loop of `handler` has produced after `recs`. */
  function Started<M>(start: Call -> M, recs: seq<Record>, clock: nat -> LocalTime, uuids: nat -> Uuid, first: nat): seq<M>
  {
    if recs == [] then []
    else
      var done := Started(start, recs[..|recs| - 1], clock, uuids, first);
      var rec := recs[|recs| - 1];
      if IsS3(rec) then done + [start(Call(rec, clock(first + |done|), uuids(first + |done|)))] else done
  }

  /** Filtering and calling record by record is calling `start` on the
      calls for the S3 records. */
  lemma {:induction false} StartedIsEach<M>(start: Call -> M, recs: seq<Record>, clock: nat -> LocalTime, uuids: nat -> Uuid, first: nat)
    ensures Started(start, recs, clock, uuids, first) == Each(start, Calls(S3Records(recs), clock, uuids, first))
  {
    if recs != [] {
      var n := |recs| - 1;
      var rec := recs[n];
      StartedIsEach(start, recs[..n], clock, uuids, first);
      var done := S3Records(recs[..n]);
      EachCallsSnoc(start, done, rec, clock, uuids, first);
      if IsS3(rec) {
        assert S3Records(recs) == done + [rec];
      } else {
        assert S3Records(recs) == done;
      }
    }
  }

  /** The inner loop of `handler`: call `start` (`start_job` with the
      configuration bound) for every S3 record of one message, the clock
      and UUID generator having been read `first` times before. */
  method SubmitRecords<M>(start: Call -> M, recs: seq<Record>, clock: nat -> LocalTime, uuids: nat -> Uuid, first: nat)
    returns (batch: seq<M>)
    ensures batch == Each(start, Calls(S3Records(recs), clock, uuids, first))
  {
    batch := [];
    var j := 0;
    while j < |recs|
      invariant 0 <= j <= |recs|
      invariant batch == Started(start, recs[..j], clock, uuids, first)
    {
      var rec := recs[j];
      assert recs[..j + 1][..j] == recs[..j];
      if IsS3(rec) {
        batch := batch + [start(Call(rec, clock(first + |batch|), uuids(first + |batch|)))];
      }
      j := j + 1;
    }
    assert recs[..j] == recs;
    StartedIsEach(start, recs, clock, uuids, first);
  }

  /** `handler`: one request per S3 record of every message, in order; the
      `k`-th request reads the clock and the UUID generator the `k`-th
      time. */
  method Handler(cfg: Config, event: Event, clock: nat -> LocalTime, uuids: nat -> Uuid)
    returns (submitted: seq<map<Param, Value>>)
    ensures submitted == Requests(cfg, Calls(SelectedOf(event), clock, uuids, 0))
  {
    var msgs := Messages(event);
    submitted := [];
    var i := 0;
    while i < |msgs|
      invariant 0 <= i <= |msgs|
      invariant submitted == Requests(cfg, Calls(Selected(msgs[..i]), clock, uuids, 0))
    {
      var batch := SubmitRecords(Submission(cfg), RecordsOf(msgs[i]), clock, uuids, |submitted|);
      EachCallsMessage(Submission(cfg), msgs, i, clock, uuids);
      submitted := submitted + batch;
      i := i + 1;
    }
    assert msgs[..i] == msgs;
  }
}
