/** The search-term editor of the home page (client/src/pages/Home.tsx): the
    text input, the list of active terms, the set of checked terms and the
    query last sent to the server. Each handler is a function from state to
    state. */
module TermList {
  import opened Text

  datatype State = State(input: string, active: seq<string>, checked: set<string>, query: seq<string>)

  /** Every checked term is an active term. */
  predicate Inv(st: State) {
    forall t :: t in st.checked ==> t in st.active
  }

  /** No term is active twice. */
  predicate Distinct(xs: seq<string>) {
    forall a, b :: 0 <= a < b < |xs| ==> xs[a] != xs[b]
  }

  /** The first render: the terms read from the URL are active, checked and
      queried, and the input is empty. */
  function Init(initial: seq<string>): (st: State)
    ensures Inv(st)
    ensures st.input == "" && st.active == initial && st.query == initial
    ensures forall t :: t in st.checked <==> t in initial
  {
    State("", initial, set t | t in initial :: t, initial)
  }

  /** Typing into the input. */
  function SetInput(st: State, text: string): (r: State)
    ensures r.input == text && r.active == st.active && r.checked == st.checked && r.query == st.query
  {
    st.(input := text)
  }

  /** The trimmed input, when it would be a new term. */
  predicate IsNewTerm(st: State) {
    Trim(st.input) != "" && Trim(st.input) !in st.active
  }

  /** `addTerm`: a new trimmed, non-blank input is appended to the active
      terms, checked, and the input cleared; otherwise nothing changes. */
  function AddTerm(st: State): (r: State)
    ensures IsNewTerm(st) ==> r.active == st.active + [Trim(st.input)] && r.input == ""
    ensures forall x :: x in r.checked <==> x in st.checked || (IsNewTerm(st) && x == Trim(st.input))
    ensures !IsNewTerm(st) ==> r == st
    ensures r.query == st.query
  {
    if IsNewTerm(st) then
      var t := Trim(st.input);
      State("", st.active + [t], st.checked + {t}, st.query)
    else st
  }

  /** `prev.filter(t => t !== term)`. */
  function RemoveAll(xs: seq<string>, term: string): (r: seq<string>)
    ensures forall x :: x in r <==> x in xs && x != term
    ensures |r| <= |xs|
  {
    if |xs| == 0 then []
    else (if xs[0] == term then [] else [xs[0]]) + RemoveAll(xs[1..], term)
  }

  /** Removing keeps the order of the other terms: it distributes over
      concatenation. */
  lemma {:induction false} RemoveAllAppend(a: seq<string>, b: seq<string>, term: string)
    ensures RemoveAll(a + b, term) == RemoveAll(a, term) + RemoveAll(b, term)
  {
    if |a| > 0 {
      assert (a + b)[0] == a[0];
      assert (a + b)[1..] == a[1..] + b;
      RemoveAllAppend(a[1..], b, term);
      var head: seq<string> := if a[0] == term then [] else [a[0]];
      assert head + (RemoveAll(a[1..], term) + RemoveAll(b, term))
        == (head + RemoveAll(a[1..], term)) + RemoveAll(b, term);
    } else {
      assert a + b == b;
    }
  }

  /** A term absent from the list is not removed from anything. */
  lemma {:induction false} RemoveAllAbsent(xs: seq<string>, term: string)
    requires term !in xs
    ensures RemoveAll(xs, term) == xs
  {
    if |xs| > 0 {
      RemoveAllAbsent(xs[1..], term);
      assert xs == [xs[0]] + xs[1..];
    }
  }

  /** `removeTerm(term)`: every copy of the term leaves the active list and
      the checked set; the input and the query stay. */
  function RemoveTerm(st: State, term: string): (r: State)
    ensures forall x :: x in r.active <==> x in st.active && x != term
    ensures forall x :: x in r.checked <==> x in st.checked && x != term
    ensures r.input == st.input && r.query == st.query
  {
    st.(active := RemoveAll(st.active, term), checked := st.checked - {term})
  }

  /** `toggleTerm(term)`: flips whether the term is checked and nothing else. */
  function ToggleTerm(st: State, term: string): (r: State)
    ensures term in r.checked <==> term !in st.checked
    ensures forall x :: x != term ==> (x in r.checked <==> x in st.checked)
    ensures r.input == st.input && r.active == st.active && r.query == st.query
  {
    if term in st.checked then st.(checked := st.checked - {term})
    else st.(checked := st.checked + {term})
  }

  /** Toggling twice restores the state. */
  lemma ToggleTwice(st: State, term: string)
    ensures ToggleTerm(ToggleTerm(st, term), term) == st
  {
    var r := ToggleTerm(ToggleTerm(st, term), term);
    assert r.checked == st.checked;
  }

  /** `activeTerms.filter(t => checkedTerms.has(t))`. */
  function CheckedInOrder(active: seq<string>, checked: set<string>): (r: seq<string>)
    ensures forall x :: x in r <==> x in active && x in checked
    ensures |r| <= |active|
  {
    if |active| == 0 then []
    else (if active[0] in checked then [active[0]] else []) + CheckedInOrder(active[1..], checked)
  }

  /** The checked terms keep the order of the active list. */
  lemma {:induction false} CheckedInOrderAppend(a: seq<string>, b: seq<string>, checked: set<string>)
    ensures CheckedInOrder(a + b, checked) == CheckedInOrder(a, checked) + CheckedInOrder(b, checked)
  {
    if |a| > 0 {
      assert (a + b)[0] == a[0];
      assert (a + b)[1..] == a[1..] + b;
      CheckedInOrderAppend(a[1..], b, checked);
      var head: seq<string> := if a[0] in checked then [a[0]] else [];
      assert head + (CheckedInOrder(a[1..], checked) + CheckedInOrder(b, checked))
        == (head + CheckedInOrder(a[1..], checked)) + CheckedInOrder(b, checked);
    } else {
      assert a + b == b;
    }
  }

  /** `handleSearch`: the query becomes the checked active terms in active
      order; a new trimmed input is also added, checked, queried last and
      cleared. An input that is already active is neither re-checked nor
      queried, and stays in the input. */
  function HandleSearch(st: State): (r: State)
    ensures IsNewTerm(st) ==>
      && r.query == CheckedInOrder(st.active, st.checked) + [Trim(st.input)]
      && r.active == st.active + [Trim(st.input)]
      && r.checked == st.checked + {Trim(st.input)}
      && r.input == ""
    ensures !IsNewTerm(st) ==>
      r == st.(query := CheckedInOrder(st.active, st.checked))
  {
    var base := CheckedInOrder(st.active, st.checked);
    if IsNewTerm(st) then
      var t := Trim(st.input);
      State("", st.active + [t], st.checked + {t}, base + [t])
    else st.(query := base)
  }

  /** After a search every queried term is active and checked, and every
      term that is active and checked is queried. */
  lemma SearchQueriesCheckedTerms(st: State)
    ensures var r := HandleSearch(st);
      forall x :: x in r.query <==> x in r.active && x in r.checked
  {
    var r := HandleSearch(st);
    if IsNewTerm(st) {
      var t := Trim(st.input);
      forall x ensures x in r.query <==> x in r.active && x in r.checked {
        assert x in r.query <==> (x in st.active && x in st.checked) || x == t;
      }
    }
  }

  /** An active term that is unchecked is not searched even when it is
      typed again, and the input is not cleared. */
  lemma UncheckedDuplicateNotSearched(st: State)
    requires Trim(st.input) in st.active && Trim(st.input) !in st.checked
    ensures Trim(st.input) !in HandleSearch(st).query
    ensures HandleSearch(st).input == st.input
  {
  }

  /** Every handler keeps the checked terms among the active ones, toggling
      when it is applied to an active term (the only terms it is offered
      for). */
  lemma HandlersKeepInv(st: State, term: string, text: string)
    requires Inv(st)
    ensures Inv(SetInput(st, text))
    ensures Inv(AddTerm(st))
    ensures Inv(RemoveTerm(st, term))
    ensures Inv(HandleSearch(st))
    ensures term in st.active ==> Inv(ToggleTerm(st, term))
  {
  }

  /** The handlers that add terms never make a term active twice. */
  lemma HandlersKeepDistinct(st: State, term: string)
    requires Distinct(st.active)
    ensures Distinct(AddTerm(st).active)
    ensures Distinct(HandleSearch(st).active)
    ensures Distinct(RemoveTerm(st, term).active)
  {
    RemoveAllDistinct(st.active, term);
  }

  lemma {:induction false} RemoveAllDistinct(xs: seq<string>, term: string)
    requires Distinct(xs)
    ensures Distinct(RemoveAll(xs, term))
  {
    if |xs| > 0 {
      assert Distinct(xs[1..]) by {
        forall a, b | 0 <= a < b < |xs[1..]| ensures xs[1..][a] != xs[1..][b] {
          assert xs[1..][a] == xs[a + 1] && xs[1..][b] == xs[b + 1];
        }
      }
      RemoveAllDistinct(xs[1..], term);
      var rest := RemoveAll(xs[1..], term);
      if xs[0] != term {
        var r := [xs[0]] + rest;
        forall a, b | 0 <= a < b < |r| ensures r[a] != r[b] {
          assert r[b] == rest[b - 1] && r[b] in rest;
          if a > 0 {
            assert r[a] == rest[a - 1];
          }
        }
      }
    }
  }
}
