/** `buildUrl` of shared/routes.ts: each `:key` placeholder of a route path
    is replaced by its parameter's text with `String.prototype.replace`,
    whose string pattern replaces only the first occurrence and whose
    replacement text interprets `$` patterns. */
module Url {
  import opened Wrappers
  import opened Text

  /** A parameter value: `string | number`; numbers are integers here. */
  datatype Param = PStr(s: string) | PInt(n: int)

  /** `String(value)`. */
  function ParamText(p: Param): string {
    match p
    case PStr(s) => s
    case PInt(n) => IntToString(n)
  }

  function Placeholder(key: string): string {
    ":" + key
  }

  /** The replacement text of `replace` with a string pattern (GetSubstitution,
      section 22.1.3.19.1 of ECMA-262): `$$` is a dollar sign, `$&` the
      matched text, `` $` `` the text before the match and `$'` the text
      after it; every other character, and every other `$`, is itself. */
  function Substitute(repl: string, matched: string, before: string, after: string): string
    decreases |repl|
  {
    if |repl| == 0 then ""
    else if repl[0] == '$' && |repl| >= 2 && repl[1] in "$&`'" then
      var part := if repl[1] == '$' then "$"
                  else if repl[1] == '&' then matched
                  else if repl[1] == '`' then before
                  else after;
      part + Substitute(repl[2..], matched, before, after)
    else [repl[0]] + Substitute(repl[1..], matched, before, after)
  }

  /** A replacement without `$` is inserted as it is. */
  lemma {:induction false} SubstitutePlain(repl: string, matched: string, before: string, after: string)
    requires '$' !in repl
    ensures Substitute(repl, matched, before, after) == repl
  {
    if |repl| > 0 {
      SubstitutePlain(repl[1..], matched, before, after);
      assert repl == [repl[0]] + repl[1..];
    }
  }

  /** `s.replace(pattern, repl)` for a string pattern. */
  function ReplaceFirst(s: string, pattern: string, repl: string): (r: string)
    ensures !IsInfix(pattern, s) ==> r == s
  {
    match IndexOf(s, pattern)
    case None => s
    case Some(i) =>
      var after := s[i + |pattern|..];
      s[..i] + Substitute(repl, pattern, s[..i], after) + after
  }

  /** Without `$` in the replacement, only the first occurrence of the
      pattern is replaced: the text before it, which holds no occurrence,
      and the text after it are kept. */
  lemma ReplaceFirstOnlyFirst(s: string, pattern: string, repl: string)
    requires IsInfix(pattern, s) && '$' !in repl
    ensures exists i :: (0 <= i <= |s| - |pattern|
      && s == s[..i] + pattern + s[i + |pattern|..]
      && (forall k :: 0 <= k < i ==> !IsPrefix(pattern, s[k..]))
      && ReplaceFirst(s, pattern, repl) == s[..i] + repl + s[i + |pattern|..])
  {
    var i := IndexOf(s, pattern).value;
    SubstitutePlain(repl, pattern, s[..i], s[i + |pattern|..]);
    assert s[i..][..|pattern|] == pattern;
    assert s == s[..i] + s[i..][..|pattern|] + s[i + |pattern|..];
  }

  /** One `forEach` step: replace the placeholder if the URL includes it. */
  function ApplyParam(url: string, kv: (string, Param)): (r: string)
    ensures !IsInfix(Placeholder(kv.0), url) ==> r == url
  {
    if IsInfix(Placeholder(kv.0), url) then ReplaceFirst(url, Placeholder(kv.0), ParamText(kv.1))
    else url
  }

  function ApplyParams(url: string, params: seq<(string, Param)>): string
    decreases |params|
  {
    if |params| == 0 then url else ApplyParams(ApplyParam(url, params[0]), params[1..])
  }

  /** `buildUrl(path, params)`; the entries are in `Object.entries` order. */
  function BuildUrl(path: string, params: Option<seq<(string, Param)>>): (r: string)
    ensures params.None? ==> r == path
    ensures params == Some([]) ==> r == path
  {
    match params
    case None => path
    case Some(ps) => ApplyParams(path, ps)
  }

  /** Parameters whose placeholders the path does not contain change
      nothing. */
  lemma {:induction false} AbsentKeysChangeNothing(path: string, params: seq<(string, Param)>)
    requires forall i :: 0 <= i < |params| ==> !IsInfix(Placeholder(params[i].0), path)
    ensures BuildUrl(path, Some(params)) == path
    decreases |params|
  {
    if |params| > 0 {
      assert ApplyParam(path, params[0]) == path;
      assert forall i :: 0 <= i < |params[1..]| ==> params[1..][i] == params[i + 1];
      AbsentKeysChangeNothing(path, params[1..]);
    }
  }

  /** A single parameter whose placeholder first occurs at `i`, with a text
      without `$`, replaces that occurrence only. */
  lemma OneParamReplacesFirst(path: string, key: string, value: Param, i: nat)
    requires i + |Placeholder(key)| <= |path| && IsPrefix(Placeholder(key), path[i..])
    requires forall k :: 0 <= k < i ==> !IsPrefix(Placeholder(key), path[k..])
    requires '$' !in ParamText(value)
    ensures BuildUrl(path, Some([(key, value)])) == path[..i] + ParamText(value) + path[i + |Placeholder(key)|..]
  {
    var ps := [(key, value)];
    assert ps[1..] == [];
    assert ApplyParams(path, ps) == ApplyParam(path, ps[0]);
    var p := Placeholder(key);
    assert IsInfix(p, path);
    var j := IndexOf(path, p).value;
    assert j == i;
    SubstitutePlain(ParamText(value), p, path[..i], path[i + |p|..]);
  }

  /** The placeholder first occurs where the first colon is. */
  lemma FirstColon(path: string, key: string, i: nat)
    requires i + |Placeholder(key)| <= |path| && IsPrefix(Placeholder(key), path[i..])
    requires forall k :: 0 <= k < i ==> path[k] != ':'
    ensures forall k :: 0 <= k < i ==> !IsPrefix(Placeholder(key), path[k..])
  {
    forall k | 0 <= k < i ensures !IsPrefix(Placeholder(key), path[k..]) {
      assert path[k..][0] == path[k];
    }
  }

  /** The viewer's download link: `buildUrl("/api/files/:id", {id: 5})`. */
  lemma FileUrlExample()
    ensures BuildUrl("/api/files/:id", Some([("id", PInt(5))])) == "/api/files/5"
  {
    var path := "/api/files/:id";
    FileUrlPath(path);
    FirstColon(path, "id", 11);
    assert ParamText(PInt(5)) == "5";
    OneParamReplacesFirst(path, "id", PInt(5), 11);
  }

  /** Where the placeholder sits in the download path. */
  lemma FileUrlPath(path: string)
    requires path == "/api/files/:id"
    ensures 11 + |Placeholder("id")| <= |path| && IsPrefix(Placeholder("id"), path[11..])
    ensures forall k :: 0 <= k < 11 ==> path[k] != ':'
    ensures path[..11] + "5" + path[11 + |Placeholder("id")|..] == "/api/files/5"
  {
    assert IsPrefix(Placeholder("id"), path[11..]);
  }

  /** Matching is plain substring search: the key `id` also rewrites the
      beginning of a `:idx` placeholder. */
  lemma PrefixPlaceholderExample()
    ensures BuildUrl("/x/:idx", Some([("id", PStr("7"))])) == "/x/7x"
  {
    var path := "/x/:idx";
    PrefixPlaceholderPath(path);
    FirstColon(path, "id", 3);
    assert ParamText(PStr("7")) == "7";
    OneParamReplacesFirst(path, "id", PStr("7"), 3);
  }

  /** Where the shorter placeholder sits in the longer one's path. */
  lemma PrefixPlaceholderPath(path: string)
    requires path == "/x/:idx"
    ensures 3 + |Placeholder("id")| <= |path| && IsPrefix(Placeholder("id"), path[3..])
    ensures forall k :: 0 <= k < 3 ==> path[k] != ':'
    ensures path[..3] + "7" + path[3 + |Placeholder("id")|..] == "/x/7x"
  {
    assert IsPrefix(Placeholder("id"), path[3..]);
  }

  /** The value's text is a replacement pattern, not inserted verbatim: a
      string value `$&` puts the matched placeholder back. */
  lemma DollarPatternInValue()
    ensures BuildUrl("/:id", Some([("id", PStr("$&"))])) == "/:id"
  {
    var path := "/:id";
    var ps := [("id", PStr("$&"))];
    assert ps[1..] == [];
    assert IsPrefix(Placeholder("id"), path[1..]);
    assert path[0] != ':';
    FirstColon(path, "id", 1);
    assert IsInfix(Placeholder("id"), path);
    var j := IndexOf(path, Placeholder("id")).value;
    assert j == 1;
    assert "$&"[2..] == "";
    assert Substitute("$&", ":id", "/", "") == ":id";
  }
}
