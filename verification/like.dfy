/** PostgreSQL's `ILIKE` as the search query uses it (server/storage.ts):
    each term `t` becomes the pattern `%t%`, unescaped, so `%` matches any
    run of characters, `_` any single character and a backslash (the default
    escape character) makes the next character literal. Case is ignored by
    lower-casing both sides. */
module Like {
  import opened Wrappers
  import opened Text
  import opened Cells

  datatype Token = AnyString | AnyChar | Lit(c: char)

  /** The tokens of a LIKE pattern; `None` for a pattern that ends in a lone
      escape character, which PostgreSQL rejects. */
  function Tokenize(p: string): (r: Option<seq<Token>>)
    decreases |p|
  {
    if |p| == 0 then Some([])
    else if p[0] == '\\' then
      if |p| == 1 then None
      else match Tokenize(p[2..])
        case Some(ts) => Some([Lit(p[1])] + ts)
        case None => None
    else
      match Tokenize(p[1..])
      case Some(ts) => Some([TokenOf(p[0])] + ts)
      case None => None
  }

  /** The token of an unescaped pattern character. */
  function TokenOf(c: char): Token {
    if c == '%' then AnyString else if c == '_' then AnyChar else Lit(c)
  }

  /** One unescaped character followed by a well-formed rest. */
  lemma TokenizeCons(p: string, ts: seq<Token>)
    requires |p| > 0 && p[0] != '\\' && Tokenize(p[1..]) == Some(ts)
    ensures Tokenize(p) == Some([TokenOf(p[0])] + ts)
  {
  }

  /** An escaped character followed by a well-formed rest. */
  lemma TokenizeEscape(p: string, ts: seq<Token>)
    requires |p| > 1 && p[0] == '\\' && Tokenize(p[2..]) == Some(ts)
    ensures Tokenize(p) == Some([Lit(p[1])] + ts)
  {
  }

  /** Whether the whole of `s` matches the token sequence. */
  function Matches(ts: seq<Token>, s: string): bool
    decreases |ts|, |s|
  {
    if |ts| == 0 then |s| == 0
    else match ts[0]
      case AnyString => Matches(ts[1..], s) || (|s| > 0 && Matches(ts, s[1..]))
      case AnyChar => |s| > 0 && Matches(ts[1..], s[1..])
      case Lit(c) => |s| > 0 && s[0] == c && Matches(ts[1..], s[1..])
  }

  /** `s ILIKE pattern`. */
  predicate ILike(s: string, pattern: string) {
    match Tokenize(Lower(pattern))
    case Some(ts) => Matches(ts, Lower(s))
    case None => false
  }

  /** The pattern the search builds from one term. */
  function ContainsPattern(term: string): string {
    "%" + term + "%"
  }

  /** `searchText ILIKE '%term%'`. */
  predicate ILikeContains(s: string, term: string) {
    ILike(s, ContainsPattern(term))
  }

  predicate IsMeta(c: char) {
    c == '%' || c == '_' || c == '\\'
  }

  /** A term with no LIKE metacharacter. */
  predicate IsPlain(t: string) {
    forall i :: 0 <= i < |t| ==> !IsMeta(t[i])
  }

  function Lits(t: string): (r: seq<Token>)
    ensures |r| == |t|
    ensures forall i :: 0 <= i < |t| ==> r[i] == Lit(t[i])
  {
    seq(|t|, i requires 0 <= i < |t| => Lit(t[i]))
  }

  /** A plain term followed by `%` tokenizes to its literals and one `%`. */
  lemma {:induction false} TokenizePlainThenAny(t: string)
    requires IsPlain(t)
    ensures Tokenize(t + "%") == Some(Lits(t) + [AnyString])
    decreases |t|
  {
    if |t| > 0 {
      var p := t + "%";
      assert p[1..] == t[1..] + "%";
      assert p[0] == t[0] && !IsMeta(t[0]);
      assert IsPlain(t[1..]) by {
        forall i | 0 <= i < |t[1..]| ensures !IsMeta(t[1..][i]) {
          assert t[1..][i] == t[i + 1];
        }
      }
      TokenizePlainThenAny(t[1..]);
      assert Lits(t) == [Lit(t[0])] + Lits(t[1..]);
      TokenizeCons(p, Lits(t[1..]) + [AnyString]);
      assert TokenOf(p[0]) == Lit(t[0]);
      assert [Lit(t[0])] + (Lits(t[1..]) + [AnyString]) == Lits(t) + [AnyString];
    } else {
      assert t + "%" == "%";
      TokenizeAnyString();
      assert Lits(t) + [AnyString] == [AnyString];
    }
  }

  lemma TokenizeAnyString()
    ensures Tokenize("%") == Some([AnyString])
  {
    var none: seq<Token> := [];
    assert "%"[1..] == [];
    TokenizeCons("%", none);
    assert [AnyString] + none == [AnyString];
  }

  /** A lone `%` matches everything. */
  lemma {:induction false} AnyStringMatchesAll(s: string)
    ensures Matches([AnyString], s)
    decreases |s|
  {
    assert [AnyString][1..] == [];
    if |s| > 0 {
      AnyStringMatchesAll(s[1..]);
    }
  }

  /** Literals followed by `%` match exactly the strings the literals begin. */
  lemma {:induction false} LitsThenAnyIsPrefix(t: string, s: string)
    ensures Matches(Lits(t) + [AnyString], s) <==> IsPrefix(t, s)
    decreases |t|
  {
    if |t| == 0 {
      assert Lits(t) + [AnyString] == [AnyString];
      AnyStringMatchesAll(s);
    } else {
      var ts := Lits(t) + [AnyString];
      assert ts[0] == Lit(t[0]);
      assert ts[1..] == Lits(t[1..]) + [AnyString];
      if |s| > 0 {
        LitsThenAnyIsPrefix(t[1..], s[1..]);
        if IsPrefix(t, s) {
          assert s[1..][..|t| - 1] == s[..|t|][1..];
        }
        if s[0] == t[0] && IsPrefix(t[1..], s[1..]) {
          assert s[..|t|] == [s[0]] + s[1..][..|t| - 1];
        }
      }
    }
  }

  /** A leading `%` matches when the rest matches some suffix. */
  lemma {:induction false} LeadingAnyString(rest: seq<Token>, s: string)
    ensures Matches([AnyString] + rest, s) <==> exists k :: 0 <= k <= |s| && Matches(rest, s[k..])
    decreases |s|
  {
    var ts := [AnyString] + rest;
    assert ts[1..] == rest;
    assert s[0..] == s;
    if |s| > 0 {
      LeadingAnyString(rest, s[1..]);
      if exists k :: 0 <= k <= |s| && Matches(rest, s[k..]) {
        var k :| 0 <= k <= |s| && Matches(rest, s[k..]);
        if k > 0 {
          assert s[1..][k - 1..] == s[k..];
        }
      }
      if exists k :: 0 <= k <= |s[1..]| && Matches(rest, s[1..][k..]) {
        var k :| 0 <= k <= |s[1..]| && Matches(rest, s[1..][k..]);
        assert s[1..][k..] == s[k + 1..];
      }
    }
  }

  /** For a term without `%`, `_` or a backslash, the ILIKE condition is plain
      case-insensitive substring containment. */
  lemma PlainTermIsContainment(s: string, t: string)
    requires IsPlain(t)
    ensures ILikeContains(s, t) <==> IsInfix(Lower(t), Lower(s))
  {
    var lt := Lower(t);
    assert IsPlain(lt) by {
      forall i | 0 <= i < |lt| ensures !IsMeta(lt[i]) {
        assert lt[i] == LowerChar(t[i]);
      }
    }
    assert Lower(ContainsPattern(t)) == "%" + (lt + "%") by {
      LowerAppend("%", t + "%");
      LowerAppend(t, "%");
    }
    TokenizePlainThenAny(lt);
    assert Tokenize(Lower(ContainsPattern(t))) == Some([AnyString] + (Lits(lt) + [AnyString]));
    var ls := Lower(s);
    LeadingAnyString(Lits(lt) + [AnyString], ls);
    forall k | 0 <= k <= |ls|
      ensures Matches(Lits(lt) + [AnyString], ls[k..]) <==> IsPrefix(lt, ls[k..])
    {
      LitsThenAnyIsPrefix(lt, ls[k..]);
    }
  }

  /** An underscore in a term is a wildcard: the term `_` matches every
      non-empty search text, though no text contains `_` itself here. */
  lemma UnderscoreIsWildcard()
    ensures ILikeContains("abc", "_")
    ensures !IsInfix("_", "abc")
  {
    assert Lower("%_%") == "%_%";
    assert Lower("abc") == "abc";
    TokenizeAnyString();
    assert "_%"[1..] == "%";
    TokenizeCons("_%", [AnyString]);
    assert [TokenOf('_')] + [AnyString] == [AnyChar, AnyString];
    assert "%_%"[1..] == "_%";
    TokenizeCons("%_%", [AnyChar, AnyString]);
    assert [TokenOf('%')] + [AnyChar, AnyString] == [AnyString, AnyChar, AnyString];
    assert Matches([AnyString], "bc") by { AnyStringMatchesAll("bc"); }
    assert Matches([AnyChar, AnyString], "abc");
    assert !IsPrefix("_", "abc"[0..]) && !IsPrefix("_", "abc"[1..]);
    assert !IsPrefix("_", "abc"[2..]) && !IsPrefix("_", "abc"[3..]);
  }

  /** A percent sign in a term matches any run: the term `%` matches even the
      empty search text. */
  lemma PercentMatchesEverything(s: string)
    ensures ILikeContains(s, "%")
  {
    assert Lower("%%%") == "%%%";
    TokenizeAnyString();
    assert "%%"[1..] == "%";
    TokenizeCons("%%", [AnyString]);
    assert [TokenOf('%')] + [AnyString] == [AnyString, AnyString];
    assert "%%%"[1..] == "%%";
    TokenizeCons("%%%", [AnyString, AnyString]);
    assert [TokenOf('%')] + [AnyString, AnyString] == [AnyString, AnyString, AnyString];
    AnyStringMatchesAll(Lower(s));
    assert [AnyString, AnyString, AnyString][1..] == [AnyString, AnyString];
    assert [AnyString, AnyString][1..] == [AnyString];
  }

  /** A term ending in a backslash escapes the closing `%`, so it matches only
      search texts that end with the term's other characters and a `%`. */
  lemma TrailingBackslashAnchorsAtEnd()
    ensures ILikeContains("5%", "5\\")
    ensures !ILikeContains("5% off", "5\\")
  {
    var ts := [AnyString, Lit('5'), Lit('%')];
    TrailingBackslashTokens();
    assert Lower("5%") == "5%";
    assert ts[1..] == [Lit('5'), Lit('%')];
    assert Matches(ts[1..], "5%");
    var off := "5% off";
    assert Lower(off) == off;
    LeadingAnyString(ts[1..], off);
    FiveThenPercentNowhere(off);
    assert ts == [AnyString] + ts[1..];
  }

  /** `%5\%` reads as any run, a literal `5` and a literal `%`. */
  lemma TrailingBackslashTokens()
    ensures Tokenize(Lower(ContainsPattern("5\\"))) == Some([AnyString, Lit('5'), Lit('%')])
  {
    var p := ContainsPattern("5\\");
    assert p == ['%', '5', '\\', '%'];
    assert Lower(p) == p;
    var none: seq<Token> := [];
    assert p[2..][2..] == [];
    TokenizeEscape(p[2..], none);
    assert [Lit('%')] + none == [Lit('%')];
    assert p[1..][1..] == p[2..];
    TokenizeCons(p[1..], [Lit('%')]);
    assert [TokenOf('5')] + [Lit('%')] == [Lit('5'), Lit('%')];
    TokenizeCons(p, [Lit('5'), Lit('%')]);
    assert [TokenOf('%')] + [Lit('5'), Lit('%')] == [AnyString, Lit('5'), Lit('%')];
  }

  /** No suffix of `5% off` is exactly `5%`. */
  lemma FiveThenPercentNowhere(off: string)
    requires off == "5% off"
    ensures forall k :: 0 <= k <= |off| ==> !Matches([Lit('5'), Lit('%')], off[k..])
  {
    forall k | 0 <= k <= |off| ensures !Matches([Lit('5'), Lit('%')], off[k..]) {
      var u := off[k..];
      if |u| > 0 && u[0] == '5' {
        assert k == 0;
        assert u[1..] == "% off";
        assert [Lit('5'), Lit('%')][1..] == [Lit('%')];
        assert "% off"[1..] == " off";
        assert [Lit('%')][1..] == [];
      }
    }
  }

  // ---------------------------------------------------------------------
  // Tokens back to a pattern
  // ---------------------------------------------------------------------

  /** A pattern text for one token: `%`, `_`, or the character, escaped when
      it is a metacharacter. */
  function RenderToken(t: Token): string {
    match t
    case AnyString => "%"
    case AnyChar => "_"
    case Lit(c) => if IsMeta(c) then ['\\', c] else [c]
  }

  /** A pattern text for a token sequence. */
  function Render(ts: seq<Token>): string {
    if |ts| == 0 then "" else RenderToken(ts[0]) + Render(ts[1..])
  }

  /** Every token sequence is written by some pattern: reading the rendered
      pattern gives the tokens back. */
  lemma {:induction false} TokenizeRender(ts: seq<Token>)
    ensures Tokenize(Render(ts)) == Some(ts)
  {
    if |ts| > 0 {
      var rest := Render(ts[1..]);
      var p := RenderToken(ts[0]) + rest;
      assert Render(ts) == p;
      assert ts == [ts[0]] + ts[1..];
      TokenizeRender(ts[1..]);
      if ts[0].Lit? && IsMeta(ts[0].c) {
        assert p[0] == '\\' && p[1] == ts[0].c && p[2..] == rest;
        TokenizeEscape(p, ts[1..]);
      } else {
        assert p[0] != '\\' && p[1..] == rest && TokenOf(p[0]) == ts[0];
        TokenizeCons(p, ts[1..]);
      }
    }
  }

  /** Literal tokens match exactly the text they spell. */
  lemma {:induction false} LitsMatchExactly(t: string, s: string)
    ensures Matches(Lits(t), s) <==> s == t
    decreases |t|
  {
    if |t| > 0 {
      assert Lits(t)[0] == Lit(t[0]) && Lits(t)[1..] == Lits(t[1..]);
      if |s| > 0 {
        LitsMatchExactly(t[1..], s[1..]);
        assert s == [s[0]] + s[1..] && t == [t[0]] + t[1..];
      }
    }
  }

  /** A pattern with no metacharacter reads as its literal characters. */
  lemma {:induction false} TokenizePlain(t: string)
    requires IsPlain(t)
    ensures Tokenize(t) == Some(Lits(t))
    decreases |t|
  {
    if |t| > 0 {
      assert IsPlain(t[1..]) by {
        forall i | 0 <= i < |t[1..]| ensures !IsMeta(t[1..][i]) {
          assert t[1..][i] == t[i + 1];
        }
      }
      TokenizePlain(t[1..]);
      assert !IsMeta(t[0]) && TokenOf(t[0]) == Lit(t[0]);
      TokenizeCons(t, Lits(t[1..]));
      assert [Lit(t[0])] + Lits(t[1..]) == Lits(t);
    } else {
      assert Lits(t) == [];
    }
  }

  /** Without `%`, `_` or a backslash, `s ILIKE pattern` is equality ignoring
      case. */
  lemma PlainPatternIsEquality(s: string, pattern: string)
    requires IsPlain(pattern)
    ensures ILike(s, pattern) <==> Lower(s) == Lower(pattern)
  {
    var lp := Lower(pattern);
    assert IsPlain(lp) by {
      forall i | 0 <= i < |lp| ensures !IsMeta(lp[i]) {
        assert lp[i] == LowerChar(pattern[i]);
      }
    }
    TokenizePlain(lp);
    LitsMatchExactly(lp, Lower(s));
  }

  /** A row one of whose cells contains a plain term, ignoring case, meets
      that term's ILIKE condition: the search text holds every cell. */
  lemma CellContainingTermMatches(cells: seq<string>, i: nat, t: string)
    requires i < |cells| && IsPlain(t) && IsInfix(Lower(t), Lower(cells[i]))
    ensures ILikeContains(SearchText(cells), t)
  {
    SearchTextHasEachCell(cells, i);
    InfixTrans(Lower(t), Lower(cells[i]), SearchText(cells));
    LowerIdempotent(Join(cells, " "));
    PlainTermIsContainment(SearchText(cells), t);
  }
}
