/** `AutocompleteInput` of `components/FilterPanel/index.tsx`: the list of suggestions that match
    the typed value, and the keyboard state machine over the highlighted entry. */
module Autocomplete {
  import opened Optional
  import opened Seqs
  import opened Text

  /** At most this many suggestions are shown. */
  const MaxSuggestions := 10

  /** A suggestion matches when it contains the typed value, ignoring case. */
  predicate Matches(value: string, suggestion: string)
  {
    Text.Contains(Lower(suggestion), Lower(value))
  }

  function MatchesOf(value: string): string -> bool
  {
    suggestion => Matches(value, suggestion)
  }

  /** The suggestion list the effect computes: none for an empty input; otherwise the first ten
      matching suggestions, in their order. */
  function FilterSuggestions(value: string, suggestions: seq<string>): (r: seq<string>)
    ensures value == "" ==> r == []
    ensures |r| <= MaxSuggestions
    ensures value != "" ==> r <= Filter(suggestions, MatchesOf(value))
    ensures value != "" && |Filter(suggestions, MatchesOf(value))| <= MaxSuggestions ==>
      r == Filter(suggestions, MatchesOf(value))
    ensures value != "" && |Filter(suggestions, MatchesOf(value))| > MaxSuggestions ==> |r| == MaxSuggestions
  {
    if |value| > 0 then
      var filtered := Filter(suggestions, MatchesOf(value));
      if |filtered| <= MaxSuggestions then filtered else filtered[..MaxSuggestions]
    else []
  }

  /** Every suggestion shown is one of the suggestions, matches the input, and they keep their
      order. */
  lemma SuggestionsMatch(value: string, suggestions: seq<string>)
    ensures IsSubseq(FilterSuggestions(value, suggestions), suggestions)
    ensures forall s :: s in FilterSuggestions(value, suggestions) ==> s in suggestions && Matches(value, s)
  {
    var r := FilterSuggestions(value, suggestions);
    var all := Filter(suggestions, MatchesOf(value));
    FilterIsSubseq(suggestions, MatchesOf(value));
    if value != "" {
      PrefixIsSubseq(r, all);
      SubseqTransitive(r, all, suggestions);
      forall s | s in r ensures s in suggestions && Matches(value, s) {
        var i :| 0 <= i < |r| && r[i] == s;
        assert all[i] == s;
      }
    }
  }

  /** The input's dropdown: whether it is open, the suggestions shown and the highlighted one
      (-1 for none). */
  datatype State = State(isOpen: bool, filtered: seq<string>, activeIndex: int)

  /** The highlighted entry is none or one of the suggestions shown. */
  predicate Valid(s: State)
  {
    -1 <= s.activeIndex < |s.filtered|
  }

  /** The effect that runs when the value or the suggestions change: the list is recomputed and
      nothing is highlighted. */
  function Refresh(s: State, value: string, suggestions: seq<string>): (r: State)
    ensures Valid(r) && r.activeIndex == -1 && r.isOpen == s.isOpen
  {
    s.(filtered := FilterSuggestions(value, suggestions), activeIndex := -1)
  }

  /** Typing reports the new value and opens the list. */
  function InputChange(s: State, newValue: string): (r: (State, string))
    ensures r.0.isOpen && r.0.filtered == s.filtered && r.0.activeIndex == s.activeIndex && r.1 == newValue
  {
    (s.(isOpen := true), newValue)
  }

  datatype Key = ArrowDown | ArrowUp | Enter | Escape | OtherKey

  /** `handleSuggestionClick`: the suggestion is reported as the new value, the list closes and
      nothing is highlighted. */
  function SuggestionClick(s: State, suggestion: string): (r: (State, Option<string>))
    ensures !r.0.isOpen && r.0.activeIndex == -1 && r.0.filtered == s.filtered
    ensures r.1 == Some(suggestion)
  {
    (s.(isOpen := false, activeIndex := -1), Some(suggestion))
  }

  /** `handleKeyDown`: the new state and the value reported through `onChange`, if any. Nothing
      happens while the list is closed or empty. Down moves to the next entry and stops at the
      last; Up moves to the previous entry and from the first (or none) to none; Enter on a
      highlighted entry selects it; Escape closes the list. */
  function KeyDown(s: State, key: Key): (r: (State, Option<string>))
    requires Valid(s)
    ensures Valid(r.0) && r.0.filtered == s.filtered
    ensures !s.isOpen || s.filtered == [] ==> r == (s, None)
    ensures r.1.Some? <==> s.isOpen && key == Enter && s.activeIndex >= 0
    ensures r.1.Some? ==> r.1.value == s.filtered[s.activeIndex] && !r.0.isOpen && r.0.activeIndex == -1
    ensures s.isOpen && s.filtered != [] && key == Escape ==> !r.0.isOpen && r.0.activeIndex == -1
    ensures s.isOpen && s.filtered != [] && key == ArrowDown ==>
      r.0.isOpen && r.0.activeIndex == (if s.activeIndex < |s.filtered| - 1 then s.activeIndex + 1 else s.activeIndex)
    ensures s.isOpen && s.filtered != [] && key == ArrowUp ==>
      r.0.isOpen && r.0.activeIndex == (if s.activeIndex > 0 then s.activeIndex - 1 else -1)
  {
    if !s.isOpen || |s.filtered| == 0 then (s, None)
    else
      match key
      case ArrowDown =>
        (s.(activeIndex := if s.activeIndex < |s.filtered| - 1 then s.activeIndex + 1 else s.activeIndex), None)
      case ArrowUp =>
        (s.(activeIndex := if s.activeIndex > 0 then s.activeIndex - 1 else -1), None)
      case Enter =>
        if s.activeIndex >= 0 then SuggestionClick(s, s.filtered[s.activeIndex]) else (s, None)
      case Escape =>
        (s.(isOpen := false, activeIndex := -1), None)
      case OtherKey =>
        (s, None)
  }

  /** Up undoes Down everywhere but on the last entry. */
  lemma UpUndoesDown(s: State)
    requires Valid(s) && s.isOpen && s.activeIndex < |s.filtered| - 1
    ensures KeyDown(KeyDown(s, ArrowDown).0, ArrowUp).0 == s
  {
  }

  /** The state after pressing `key` `n` times. */
  function Presses(s: State, key: Key, n: nat): (r: State)
    requires Valid(s)
    ensures Valid(r)
    decreases n
  {
    if n == 0 then s else Presses(KeyDown(s, key).0, key, n - 1)
  }

  /** Pressing Down `n` times from nothing highlighted reaches entry `min(n, len) - 1`: the
      highlight never runs past the last suggestion. */
  lemma {:induction false} DownStopsAtLast(s: State, n: nat)
    requires Valid(s) && s.isOpen && s.filtered != [] && s.activeIndex == -1
    ensures Presses(s, ArrowDown, n).activeIndex == (if n < |s.filtered| then n else |s.filtered|) - 1
  {
    DownFrom(s, n);
  }

  /** Each Down moves one entry further until the last one. */
  lemma {:induction false} DownFrom(s: State, n: nat)
    requires Valid(s) && s.isOpen && s.filtered != []
    ensures Presses(s, ArrowDown, n).activeIndex
         == if s.activeIndex + n < |s.filtered| then s.activeIndex + n else |s.filtered| - 1
    decreases n
  {
    if n > 0 {
      DownFrom(KeyDown(s, ArrowDown).0, n - 1);
    }
  }
}
