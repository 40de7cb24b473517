/** The `parts` computation of client/src/components/Highlighter.tsx: a cell
    text is split on the search terms, case-insensitively, and each piece is
    marked and coloured when it names one of the terms. */
module Highlight {
  import opened Wrappers
  import opened Text

  /** One rendered piece: its text, whether it is shown in a `<mark>`, and
      the colour classes of the mark (`""` when unmarked). */
  datatype Part = Part(text: string, marked: bool, colorClass: string)

  /** The six mark colours, used in turn by term position. */
  const Colors: seq<string> := [
    "bg-yellow-200 dark:bg-yellow-900/50 text-yellow-900 dark:text-yellow-100",
    "bg-green-200 dark:bg-green-900/50 text-green-900 dark:text-green-100",
    "bg-blue-200 dark:bg-blue-900/50 text-blue-900 dark:text-blue-100",
    "bg-purple-200 dark:bg-purple-900/50 text-purple-900 dark:text-purple-100",
    "bg-pink-200 dark:bg-pink-900/50 text-pink-900 dark:text-pink-100",
    "bg-orange-200 dark:bg-orange-900/50 text-orange-900 dark:text-orange-100"
  ]

  // ---------------------------------------------------------------------
  // The pattern
  // ---------------------------------------------------------------------

  /** The characters `/[.*+?^${}()|[\]\\]/` escapes. */
  predicate IsSpecial(c: char) {
    c in ".*+?^${}()|[]\\"
  }

  /** `term.replace(/[.*+?^${}()|[\]\\]/g, '\\$&')`: a backslash before
      every special character. */
  function Escape(t: string): (r: string)
    ensures |r| >= |t|
    ensures r == t <==> forall i :: 0 <= i < |t| ==> !IsSpecial(t[i])
  {
    if |t| == 0 then ""
    else (if IsSpecial(t[0]) then ['\\', t[0]] else [t[0]]) + Escape(t[1..])
  }

  /** How a regular expression reads an alternative made of plain and
      backslash-escaped characters: `\c` stands for `c`, any other character
      for itself. */
  function Unescape(p: string): string
    decreases |p|
  {
    if |p| == 0 then ""
    else if p[0] == '\\' && |p| >= 2 then [p[1]] + Unescape(p[2..])
    else [p[0]] + Unescape(p[1..])
  }

  /** The escaped term reads back as the term itself, so each alternative of
      the pattern matches its term literally. */
  lemma {:induction false} EscapedTermIsLiteral(t: string)
    ensures Unescape(Escape(t)) == t
  {
    if |t| > 0 {
      EscapedTermIsLiteral(t[1..]);
      var rest := Escape(t[1..]);
      if IsSpecial(t[0]) {
        assert Escape(t) == ['\\', t[0]] + rest;
        UnescapeEscaped(t[0], rest);
      } else {
        assert Escape(t) == [t[0]] + rest;
        UnescapePlain(t[0], rest);
      }
      assert t == [t[0]] + t[1..];
    }
  }

  lemma UnescapeEscaped(c: char, rest: string)
    ensures Unescape(['\\', c] + rest) == [c] + Unescape(rest)
  {
    var e := ['\\', c] + rest;
    assert e[0] == '\\' && e[1] == c && e[2..] == rest;
  }

  lemma UnescapePlain(c: char, rest: string)
    requires c != '\\'
    ensures Unescape([c] + rest) == [c] + Unescape(rest)
  {
    var e := [c] + rest;
    assert e[0] == c && e[1..] == rest;
  }

  /** `terms.filter(t => t.trim().length > 0)`: the alternatives of the
      pattern, in term order. */
  function Alternatives(terms: seq<string>): (r: seq<string>)
    ensures |r| <= |terms|
    ensures forall i :: 0 <= i < |r| ==> NonBlank(r[i]) && r[i] in terms
    ensures forall t :: t in terms && NonBlank(t) ==> t in r
  {
    if |terms| == 0 then []
    else
      assert forall t :: t in terms ==> t == terms[0] || t in terms[1..];
      (if NonBlank(terms[0]) then [terms[0]] else []) + Alternatives(terms[1..])
  }

  /** Filtering distributes over concatenation: the alternatives of two term
      lists in a row are the alternatives of each, in order. */
  lemma {:induction false} AlternativesAppend(a: seq<string>, b: seq<string>)
    ensures Alternatives(a + b) == Alternatives(a) + Alternatives(b)
  {
    if |a| > 0 {
      assert (a + b)[0] == a[0] && (a + b)[1..] == a[1..] + b;
      AlternativesAppend(a[1..], b);
    } else {
      assert a + b == b;
    }
  }

  /** One term is an alternative exactly when it is not blank. */
  lemma AlternativesSingle(t: string)
    ensures Alternatives([t]) == if NonBlank(t) then [t] else []
  {
    assert [t][1..] == [];
  }

  // ---------------------------------------------------------------------
  // `String.prototype.split` with the pattern `(a1|a2|...)`, flags `gi`
  // ---------------------------------------------------------------------

  /** Alternative `a` matches `text` at position `k`, ignoring case. */
  predicate MatchesAt(text: string, k: nat, a: string) {
    k + |a| <= |text| && Lower(text[k..k + |a|]) == Lower(a)
  }

  /** The alternative the pattern takes at position `q`: the first, from
      `from` on, that matches there. */
  function FirstAlt(text: string, q: nat, alts: seq<string>, from: nat): (r: Option<nat>)
    requires from <= |alts|
    decreases |alts| - from
    ensures r.Some? ==> from <= r.value < |alts| && MatchesAt(text, q, alts[r.value])
    ensures r.Some? ==> forall j :: from <= j < r.value ==> !MatchesAt(text, q, alts[j])
    ensures r.None? ==> forall j :: from <= j < |alts| ==> !MatchesAt(text, q, alts[j])
  {
    if from == |alts| then None
    else if MatchesAt(text, q, alts[from]) then Some(from)
    else FirstAlt(text, q, alts, from + 1)
  }

  /** Where a match tried at `q` ends, when it splits the text: the first
      matching alternative is taken, and an empty match at the start `p` of
      the current piece does not count. */
  function MatchEnd(text: string, alts: seq<string>, p: nat, q: nat): (r: Option<nat>)
    requires p <= q < |text|
    ensures r.Some? ==> p < r.value && q <= r.value <= |text|
  {
    match FirstAlt(text, q, alts, 0)
    case None => None
    case Some(j) => if q + |alts[j]| == p then None else Some(q + |alts[j]|)
  }

  /** A match ends after the first alternative that matches at `q`; with
      non-empty alternatives, no match means no alternative matches there. */
  lemma MatchEndSpec(text: string, alts: seq<string>, p: nat, q: nat)
    requires p <= q < |text|
    ensures var r := MatchEnd(text, alts, p, q);
      r.Some? ==> exists j :: (0 <= j < |alts| && MatchesAt(text, q, alts[j])
        && r.value == q + |alts[j]| && forall j' :: 0 <= j' < j ==> !MatchesAt(text, q, alts[j']))
    ensures var r := MatchEnd(text, alts, p, q);
      r.None? && (forall j :: 0 <= j < |alts| ==> |alts[j]| > 0) ==>
        forall j :: 0 <= j < |alts| ==> !MatchesAt(text, q, alts[j])
  {
    var f := FirstAlt(text, q, alts, 0);
    if f.Some? {
      assert |alts[f.value]| > 0 || q + |alts[f.value]| == q;
    }
  }

  /** The split loop of section 22.2.6.14 of ECMA-262 (`RegExp.prototype
      [@@split]`): `p` is where the current piece starts and `q` where a
      match is tried. A match ending at `e` emits the text before it and,
      as the one capture group, the matched text. */
  function SplitFrom(text: string, alts: seq<string>, p: nat, q: nat): (r: seq<string>)
    requires p <= q <= |text|
    decreases |text| - q, q - p
    ensures 0 < |r| <= 2 * (|text| - p) + 1
  {
    if q == |text| then [text[p..]]
    else
      match MatchEnd(text, alts, p, q)
      case None => SplitFrom(text, alts, p, q + 1)
      case Some(e) => [text[p..q], text[q..e]] + SplitFrom(text, alts, e, e)
  }

  /** `text.split(regex)`; an empty text gives no piece when the pattern
      matches it and itself otherwise. The pieces join back to the text, and
      a non-empty text gives an odd number of them. */
  function Split(text: string, alts: seq<string>): (r: seq<string>)
    ensures Concat(r) == text
    ensures |text| > 0 ==> |r| % 2 == 1
  {
    if |text| == 0 then
      if FirstAlt(text, 0, alts, 0).Some? then []
      else assert Concat([text]) == text + Concat([]); [text]
    else
      SplitFromReassembles(text, alts, 0, 0);
      SplitFrom(text, alts, 0, 0)
  }

  /** The pieces joined back together. */
  function Concat(xs: seq<string>): string {
    if |xs| == 0 then "" else xs[0] + Concat(xs[1..])
  }

  lemma ConcatTwo(a: string, b: string, rest: seq<string>)
    ensures Concat([a, b] + rest) == a + b + Concat(rest)
  {
    var xs := [a, b] + rest;
    assert xs[0] == a && xs[1..] == [b] + rest;
    assert ([b] + rest)[0] == b && ([b] + rest)[1..] == rest;
  }

  /** A match ending at `e` emits two pieces and splitting goes on from `e`. */
  lemma SplitFromMatch(text: string, alts: seq<string>, p: nat, q: nat, e: nat)
    requires p <= q < |text| && MatchEnd(text, alts, p, q) == Some(e)
    ensures e <= |text|
    ensures SplitFrom(text, alts, p, q) == [text[p..q], text[q..e]] + SplitFrom(text, alts, e, e)
  {
  }

  lemma JoinSlices(text: string, p: nat, q: nat, e: nat)
    requires p <= q <= e <= |text|
    ensures text[p..q] + text[q..e] + text[e..] == text[p..]
  {
  }

  lemma ParityStep(n: int)
    ensures (n + 2) % 2 == n % 2
  {
  }

  /** There is one more piece than there are matches: an odd number. */
  lemma {:induction false} SplitFromOdd(text: string, alts: seq<string>, p: nat, q: nat)
    requires p <= q <= |text|
    ensures |SplitFrom(text, alts, p, q)| % 2 == 1
    decreases |text| - q, q - p
  {
    if q < |text| {
      var m := MatchEnd(text, alts, p, q);
      if m.None? {
        assert SplitFrom(text, alts, p, q) == SplitFrom(text, alts, p, q + 1);
        SplitFromOdd(text, alts, p, q + 1);
      } else {
        var e := m.value;
        SplitFromMatch(text, alts, p, q, e);
        SplitFromOdd(text, alts, e, e);
        var n := |SplitFrom(text, alts, e, e)|;
        assert |SplitFrom(text, alts, p, q)| == n + 2;
        ParityStep(n);
      }
    }
  }

  /** The pieces from a match on join back to the text from `p` on when the
      pieces after the match join back to the text after it. */
  lemma ConcatAfterMatch(text: string, alts: seq<string>, p: nat, q: nat, e: nat)
    requires p <= q < |text| && MatchEnd(text, alts, p, q) == Some(e)
    requires Concat(SplitFrom(text, alts, e, e)) == text[e..]
    ensures Concat(SplitFrom(text, alts, p, q)) == text[p..]
  {
    SplitFromMatch(text, alts, p, q, e);
    var rest := SplitFrom(text, alts, e, e);
    ConcatTwo(text[p..q], text[q..e], rest);
    JoinSlices(text, p, q, e);
  }

  /** Splitting loses and adds nothing: the pieces, joined, are the text
      from `p` on. */
  lemma {:induction false} SplitFromConcat(text: string, alts: seq<string>, p: nat, q: nat)
    requires p <= q <= |text|
    ensures Concat(SplitFrom(text, alts, p, q)) == text[p..]
    decreases |text| - q, q - p
  {
    if q == |text| {
      assert Concat([text[p..]]) == text[p..] + Concat([]);
    } else {
      var m := MatchEnd(text, alts, p, q);
      if m.None? {
        assert SplitFrom(text, alts, p, q) == SplitFrom(text, alts, p, q + 1);
        SplitFromConcat(text, alts, p, q + 1);
      } else {
        SplitFromConcat(text, alts, m.value, m.value);
        ConcatAfterMatch(text, alts, p, q, m.value);
      }
    }
  }

  /** The pieces join back to the text and are odd in number. */
  lemma SplitFromReassembles(text: string, alts: seq<string>, p: nat, q: nat)
    requires p <= q <= |text|
    ensures Concat(SplitFrom(text, alts, p, q)) == text[p..]
    ensures |SplitFrom(text, alts, p, q)| % 2 == 1
  {
    SplitFromConcat(text, alts, p, q);
    SplitFromOdd(text, alts, p, q);
  }

  /** No alternative matches at any position in `[p, q)`. */
  predicate Unmatched(text: string, alts: seq<string>, p: nat, q: nat) {
    forall k: nat, j :: p <= k < q && 0 <= j < |alts| ==> !MatchesAt(text, k, alts[j])
  }

  /** No alternative occurs in `piece`, ignoring case. */
  predicate NoAltIn(piece: string, alts: seq<string>) {
    forall k: nat, j :: k <= |piece| && 0 <= j < |alts| ==> !MatchesAt(piece, k, alts[j])
  }

  /** `piece` is, ignoring case, one of the alternatives. */
  predicate IsAltMatch(piece: string, alts: seq<string>) {
    exists j :: 0 <= j < |alts| && Lower(piece) == Lower(alts[j])
  }

  /** The pieces at even positions contain no alternative and the ones at
      odd positions are alternatives up to case. */
  predicate Alternating(r: seq<string>, alts: seq<string>) {
    forall i :: 0 <= i < |r| ==> if i % 2 == 0 then NoAltIn(r[i], alts) else IsAltMatch(r[i], alts)
  }

  /** A text between two matches holds no occurrence of an alternative,
      because the split would have matched it earlier. */
  lemma UnmatchedPiece(text: string, alts: seq<string>, p: nat, q: nat)
    requires p <= q <= |text|
    requires forall j :: 0 <= j < |alts| ==> |alts[j]| > 0
    requires Unmatched(text, alts, p, q)
    ensures NoAltIn(text[p..q], alts)
  {
    var piece := text[p..q];
    forall k: nat, j | k <= |piece| && 0 <= j < |alts| ensures !MatchesAt(piece, k, alts[j]) {
      var a := alts[j];
      if k + |a| <= |piece| {
        var s1, s2 := piece[k..k + |a|], text[p + k..p + k + |a|];
        assert |s1| == |s2| && forall x :: 0 <= x < |s1| ==> s1[x] == s2[x];
        assert !MatchesAt(text, p + k, a);
      }
    }
  }

  /** Where no match is found, the unmatched stretch grows by one. */
  lemma UnmatchedGrows(text: string, alts: seq<string>, p: nat, q: nat)
    requires p <= q < |text|
    requires forall j :: 0 <= j < |alts| ==> |alts[j]| > 0
    requires Unmatched(text, alts, p, q) && MatchEnd(text, alts, p, q).None?
    ensures Unmatched(text, alts, p, q + 1)
  {
    MatchEndSpec(text, alts, p, q);
  }

  /** The text a match covers is an alternative up to case. */
  lemma MatchedPiece(text: string, alts: seq<string>, p: nat, q: nat, e: nat)
    requires p <= q < |text| && MatchEnd(text, alts, p, q) == Some(e)
    ensures IsAltMatch(text[q..e], alts)
  {
    MatchEndSpec(text, alts, p, q);
  }

  /** With non-empty alternatives the pieces alternate: the ones at even
      positions contain no alternative, the ones at odd positions are the
      matched texts, each equal to an alternative up to case. */
  lemma {:induction false} SplitFromShape(text: string, alts: seq<string>, p: nat, q: nat)
    requires p <= q <= |text|
    requires forall j :: 0 <= j < |alts| ==> |alts[j]| > 0
    requires Unmatched(text, alts, p, q)
    ensures Alternating(SplitFrom(text, alts, p, q), alts)
    decreases |text| - q, q - p
  {
    var r := SplitFrom(text, alts, p, q);
    if q == |text| {
      UnmatchedPiece(text, alts, p, q);
      assert text[p..] == text[p..q];
      assert r == [text[p..q]];
    } else {
      var m := MatchEnd(text, alts, p, q);
      if m.None? {
        UnmatchedGrows(text, alts, p, q);
        assert r == SplitFrom(text, alts, p, q + 1);
        SplitFromShape(text, alts, p, q + 1);
      } else {
        var e := m.value;
        UnmatchedPiece(text, alts, p, q);
        SplitFromMatch(text, alts, p, q, e);
        SplitFromShape(text, alts, e, e);
        MatchedPiece(text, alts, p, q, e);
        AlternatingCons(text[p..q], text[q..e], SplitFrom(text, alts, e, e), alts);
      }
    }
  }

  /** An unmatched piece and a matched one in front of alternating pieces
      keep them alternating. */
  lemma AlternatingCons(a: string, b: string, rest: seq<string>, alts: seq<string>)
    requires NoAltIn(a, alts) && IsAltMatch(b, alts) && Alternating(rest, alts)
    ensures Alternating([a, b] + rest, alts)
  {
    var r := [a, b] + rest;
    forall i | 2 <= i < |r|
      ensures if i % 2 == 0 then NoAltIn(r[i], alts) else IsAltMatch(r[i], alts)
    {
      ParityStep(i - 2);
      assert r[i] == rest[i - 2];
    }
  }

  lemma SplitShape(text: string, alts: seq<string>)
    requires |text| > 0
    requires forall j :: 0 <= j < |alts| ==> |alts[j]| > 0
    ensures |Split(text, alts)| % 2 == 1
    ensures Alternating(Split(text, alts), alts)
  {
    SplitFromReassembles(text, alts, 0, 0);
    SplitFromShape(text, alts, 0, 0);
  }

  // ---------------------------------------------------------------------
  // Marking and colouring
  // ---------------------------------------------------------------------

  /** `term.trim().toLowerCase() === part.toLowerCase()`. */
  predicate Names(term: string, part: string) {
    Lower(Trim(term)) == Lower(part)
  }

  /** Each term trimmed and lower-cased, the form `findIndex` compares. */
  function Keys(terms: seq<string>): (r: seq<string>)
    ensures |r| == |terms|
    ensures forall k :: 0 <= k < |terms| ==> r[k] == Lower(Trim(terms[k]))
  {
    seq(|terms|, k requires 0 <= k < |terms| => Lower(Trim(terms[k])))
  }

  /** A blank term names no non-empty text. */
  lemma BlankNamesNothing(t: string, part: string)
    requires !NonBlank(t) && part != ""
    ensures !Names(t, part)
  {
    NonBlankIffTrimNotEmpty(t);
  }

  /** `keys.findIndex(key => key === x)` from `from` on. */
  function FindIndex(keys: seq<string>, x: string, from: nat): (r: Option<nat>)
    requires from <= |keys|
    decreases |keys| - from
    ensures r.Some? ==> from <= r.value < |keys| && keys[r.value] == x
    ensures r.Some? ==> forall k :: from <= k < r.value ==> keys[k] != x
    ensures r.None? ==> forall k :: from <= k < |keys| ==> keys[k] != x
  {
    if from == |keys| then None
    else if keys[from] == x then Some(from)
    else FindIndex(keys, x, from + 1)
  }

  /** The first term that a piece names. */
  function FindTerm(terms: seq<string>, piece: string): (r: Option<nat>)
    ensures r.Some? ==> r.value < |terms| && Names(terms[r.value], piece)
    ensures r.Some? ==> forall k :: 0 <= k < r.value ==> !Names(terms[k], piece)
    ensures r.None? ==> forall k :: 0 <= k < |terms| ==> !Names(terms[k], piece)
  {
    FindIndex(Keys(terms), Lower(piece), 0)
  }

  /** One piece, marked with the colour of the first term it names. */
  function Label(piece: string, terms: seq<string>): (r: Part)
    ensures r.text == piece
    ensures r.marked <==> exists k :: 0 <= k < |terms| && Names(terms[k], piece)
    ensures r.marked ==> exists k :: (0 <= k < |terms| && Names(terms[k], piece)
      && (forall m :: 0 <= m < k ==> !Names(terms[m], piece))
      && r.colorClass == Colors[k % 6])
    ensures !r.marked ==> r.colorClass == ""
  {
    match FindTerm(terms, piece)
    case Some(k) => Part(piece, true, Colors[k % |Colors|])
    case None => Part(piece, false, "")
  }

  /** `matches.map(...)`: every piece labelled. */
  function Labels(pieces: seq<string>, terms: seq<string>): (r: seq<Part>)
    ensures |r| == |pieces| && forall i :: 0 <= i < |pieces| ==> r[i] == Label(pieces[i], terms)
    ensures Texts(r) == pieces
  {
    seq(|pieces|, i requires 0 <= i < |pieces| => Label(pieces[i], terms))
  }

  /** The `parts` of a cell text for the given terms. An empty text, an
      empty term list or a list of blank terms gives the whole text as one
      unmarked part. */
  function Parts(text: string, terms: seq<string>): (r: seq<Part>)
    ensures text == "" || (forall k :: 0 <= k < |terms| ==> !NonBlank(terms[k])) ==>
      r == [Part(text, false, "")]
    ensures |r| > 0
  {
    if text == "" || |terms| == 0 then [Part(text, false, "")]
    else
      var alts := Alternatives(terms);
      if |alts| == 0 then [Part(text, false, "")]
      else
        assert NonBlank(alts[0]) && alts[0] in terms;
        SplitFromReassembles(text, alts, 0, 0);
        Labels(Split(text, alts), terms)
  }

  function Texts(ps: seq<Part>): (r: seq<string>)
    ensures |r| == |ps| && forall i :: 0 <= i < |ps| ==> r[i] == ps[i].text
  {
    seq(|ps|, i requires 0 <= i < |ps| => ps[i].text)
  }

  /** The parts, joined, are the cell text. */
  lemma PartsReassemble(text: string, terms: seq<string>)
    ensures Concat(Texts(Parts(text, terms))) == text
  {
    var r := Parts(text, terms);
    if text == "" || |terms| == 0 || |Alternatives(terms)| == 0 {
      assert Concat([text]) == text + Concat([]);
    } else {
      var pieces := Split(text, Alternatives(terms));
      assert Texts(r) == pieces;
    }
  }

  /** A part of a non-empty text is marked exactly when some term, trimmed
      and lower-cased, equals the part lower-cased; a marked part takes the
      colour of the first such term, cycling through the six, and an
      unmarked part none. The one part of an empty text is never marked. */
  lemma PartMarking(text: string, terms: seq<string>, i: nat)
    requires i < |Parts(text, terms)|
    ensures var part := Parts(text, terms)[i];
      && (text == "" ==> !part.marked)
      && (text != "" ==> (part.marked <==> exists k :: 0 <= k < |terms| && Names(terms[k], part.text)))
      && (part.marked ==> exists k :: (0 <= k < |terms| && Names(terms[k], part.text)
            && (forall m :: 0 <= m < k ==> !Names(terms[m], part.text))
            && part.colorClass == Colors[k % 6]))
      && (!part.marked ==> part.colorClass == "")
      && (part.marked ==> part.colorClass in Colors)
  {
    var r := Parts(text, terms);
    if text != "" && |terms| > 0 && |Alternatives(terms)| > 0 {
      var pieces := Split(text, Alternatives(terms));
      assert r == Labels(pieces, terms);
      assert r[i] == Label(pieces[i], terms);
    } else if text != "" {
      assert r == [Part(text, false, "")];
      forall k | 0 <= k < |terms| ensures !Names(terms[k], text) {
        assert !NonBlank(terms[k]);
        BlankNamesNothing(terms[k], text);
      }
    }
  }

  /** Every alternative is non-empty, so no match is empty. */
  lemma AlternativesNonEmpty(terms: seq<string>)
    ensures forall j :: 0 <= j < |Alternatives(terms)| ==> |Alternatives(terms)[j]| > 0
  {
    var alts := Alternatives(terms);
    forall j | 0 <= j < |alts| ensures |alts[j]| > 0 {
      NonBlankNotEmpty(alts[j]);
    }
  }

  /** With a non-blank term, the parts of a non-empty text are the labelled
      pieces of the split. */
  lemma PartsAreSplitPieces(text: string, terms: seq<string>)
    requires text != "" && exists k :: 0 <= k < |terms| && NonBlank(terms[k])
    ensures |Alternatives(terms)| > 0
    ensures Texts(Parts(text, terms)) == Split(text, Alternatives(terms))
  {
    var k0 :| 0 <= k0 < |terms| && NonBlank(terms[k0]);
    assert terms[k0] in Alternatives(terms);
    assert Parts(text, terms) == Labels(Split(text, Alternatives(terms)), terms);
  }

  /** A piece equal up to case to an alternative equals a non-blank term. */
  lemma AltMatchIsTerm(piece: string, terms: seq<string>)
    requires IsAltMatch(piece, Alternatives(terms))
    ensures exists t :: t in terms && NonBlank(t) && Lower(piece) == Lower(t)
  {
    var alts := Alternatives(terms);
    var j :| 0 <= j < |alts| && Lower(piece) == Lower(alts[j]);
    assert alts[j] in terms && NonBlank(alts[j]);
  }

  /** A piece holding no alternative holds no non-blank term. */
  lemma NoAltInHasNoTerm(piece: string, terms: seq<string>)
    requires NoAltIn(piece, Alternatives(terms))
    ensures forall t, k: nat :: t in terms && NonBlank(t) ==> !MatchesAt(piece, k, t)
  {
    var alts := Alternatives(terms);
    forall t, k: nat | t in terms && NonBlank(t) ensures !MatchesAt(piece, k, t) {
      assert t in alts;
      var j :| 0 <= j < |alts| && alts[j] == t;
      if k <= |piece| {
        assert !MatchesAt(piece, k, alts[j]);
      }
    }
  }

  /** When some term is non-blank and the text is not empty, the parts at
      odd positions are the texts the pattern matched, each a non-blank term
      up to case, and the parts at even positions contain no non-blank term,
      ignoring case. */
  lemma PartsAlternate(text: string, terms: seq<string>, i: nat)
    requires text != "" && exists k :: 0 <= k < |terms| && NonBlank(terms[k])
    requires i < |Parts(text, terms)|
    ensures |Parts(text, terms)| % 2 == 1
    ensures i % 2 == 1 ==>
      exists t :: t in terms && NonBlank(t) && Lower(Parts(text, terms)[i].text) == Lower(t)
    ensures i % 2 == 0 ==>
      forall t, k: nat :: t in terms && NonBlank(t) ==> !MatchesAt(Parts(text, terms)[i].text, k, t)
  {
    var alts := Alternatives(terms);
    PartsAreSplitPieces(text, terms);
    AlternativesNonEmpty(terms);
    SplitShape(text, alts);
    var pieces := Split(text, alts);
    assert Parts(text, terms)[i].text == pieces[i];
    if i % 2 == 1 {
      AltMatchIsTerm(pieces[i], terms);
    } else {
      NoAltInHasNoTerm(pieces[i], terms);
    }
  }

  /** When no term has surrounding white space, every matched text is
      marked. */
  lemma TrimmedTermsMarkEveryMatch(text: string, terms: seq<string>, i: nat)
    requires text != "" && exists k :: 0 <= k < |terms| && NonBlank(terms[k])
    requires forall k :: 0 <= k < |terms| ==> Trimmed(terms[k])
    requires i < |Parts(text, terms)| && i % 2 == 1
    ensures Parts(text, terms)[i].marked
  {
    var piece := Parts(text, terms)[i].text;
    PartsAlternate(text, terms, i);
    var t :| t in terms && NonBlank(t) && Lower(piece) == Lower(t);
    var k :| 0 <= k < |terms| && terms[k] == t;
    TrimIdentityIffTrimmed(terms[k]);
    assert Names(terms[k], piece);
    PartMarking(text, terms, i);
  }

  /** A term with surrounding white space still splits the text, but the
      text it matches is never marked by it: trimming shortens the term, so
      it no longer equals the match. With that term alone, matched texts are
      shown unmarked. */
  lemma PaddedTermLeavesMatchUnmarked(text: string, t: string, i: nat)
    requires text != "" && NonBlank(t) && !Trimmed(t)
    requires i < |Parts(text, [t])| && i % 2 == 1
    ensures !Parts(text, [t])[i].marked
  {
    var terms := [t];
    assert NonBlank(terms[0]);
    PartsAlternate(text, terms, i);
    PartMarking(text, terms, i);
    PaddedPartUnmarked(t, Parts(text, terms)[i]);
  }

  /** A part equal up to case to the padded term is not named by it. */
  lemma PaddedPartUnmarked(t: string, part: Part)
    requires !Trimmed(t)
    requires exists u :: u in [t] && NonBlank(u) && Lower(part.text) == Lower(u)
    requires part.marked ==> exists k :: 0 <= k < |[t]| && Names([t][k], part.text)
    ensures !part.marked
  {
    var u :| u in [t] && NonBlank(u) && Lower(part.text) == Lower(u);
    assert u == t;
    PaddedTermNamesNoMatch(t, part.text);
  }

  lemma PaddedTermNamesNoMatch(t: string, piece: string)
    requires !Trimmed(t) && Lower(piece) == Lower(t)
    ensures !Names(t, piece)
  {
    TrimIdentityIffTrimmed(t);
    if Names(t, piece) {
      assert |Trim(t)| == |t|;
      TrimOfSameLength(t);
    }
  }
}
