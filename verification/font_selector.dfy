/** The font picker (components/FontSelector.tsx): a text field with a
    filtered drop-down list driven by the keyboard. Its state is the list's
    visibility, the query in the field and the highlighted row (-1 for none);
    a step may also hand a value to `onChange`. */
module FontSelection {
  import opened Common

  /** At most this many matching fonts are listed. */
  const MaxShown: nat := 200

  /** The case-insensitive substring test of the filter. */
  predicate Matches(option: string, query: string)
  {
    Includes(ToLower(option), ToLower(query))
  }

  function MatchesQuery(query: string): string -> bool
  {
    (option: string) => Matches(option, query)
  }

  /** `filtered`: the matching options in their original order, cut to 200. */
  function Filtered(options: seq<string>, query: string): (r: seq<string>)
    ensures |r| <= MaxShown
    ensures forall i :: 0 <= i < |r| ==> Matches(r[i], query) && r[i] in options
    ensures Count(MatchesQuery(query), options) <= MaxShown ==>
      forall i :: 0 <= i < |options| && Matches(options[i], query) ==> options[i] in r
    ensures |r| == if Count(MatchesQuery(query), options) <= MaxShown then Count(MatchesQuery(query), options) else MaxShown
  {
    Take(Filter(MatchesQuery(query), options), MaxShown)
  }

  /** The list keeps the options' order: its fonts come from strictly
      increasing positions of `options`, which take in every matching
      position when no more than 200 options match and, in any case, every
      matching position before the last one listed: the list is the first
      matches, not any 200 of them. */
  lemma FilteredPositions(options: seq<string>, query: string) returns (idx: seq<nat>)
    ensures |idx| == |Filtered(options, query)|
    ensures forall k :: 0 <= k < |idx| ==> idx[k] < |options| && Filtered(options, query)[k] == options[idx[k]]
    ensures forall k, l :: 0 <= k < l < |idx| ==> idx[k] < idx[l]
    ensures Count(MatchesQuery(query), options) <= MaxShown ==>
      forall j :: 0 <= j < |options| && Matches(options[j], query) ==> j in idx
    ensures forall k, j :: 0 <= k < |idx| && 0 <= j < idx[k] && Matches(options[j], query) ==> j in idx
  {
    var all := FilterPositions(MatchesQuery(query), options);
    var r := Filtered(options, query);
    idx := all[..|r|];
    if Count(MatchesQuery(query), options) <= MaxShown {
      assert idx == all;
    }
    forall k, j | 0 <= k < |idx| && 0 <= j < idx[k] && Matches(options[j], query)
      ensures j in idx
    {
      assert MatchesQuery(query)(options[j]);
      BelowInPrefix(all, |r|, k, j);
    }
  }

  /** Every text contains the empty text. */
  lemma IncludesEmpty(s: string)
    ensures Includes(s, "")
  {
    assert StartsWith(s[0..], "");
  }

  /** With an empty query the list shows the first 200 options as given. */
  lemma EmptyQueryListsAll(options: seq<string>)
    ensures Filtered(options, "") == Take(options, MaxShown)
  {
    forall i | 0 <= i < |options|
      ensures MatchesQuery("")(options[i])
    {
      IncludesEmpty(ToLower(options[i]));
    }
    FilterAll(MatchesQuery(""), options);
  }

  datatype FontState = FontState(open: bool, query: string, highlight: int)

  /** The state after a step, and the value handed to `onChange`, if any. */
  datatype Step = Step(state: FontState, chosen: Option<string>)

  /** The component's first state: closed, showing `value`, nothing highlighted. */
  function Initial(value: string): (s: FontState)
    ensures !s.open && s.query == value && s.highlight == -1
  {
    FontState(false, value, -1)
  }

  /** `choose`: hand the value on, show it in the field, close the list, drop the highlight. */
  function Choose(value: string): (r: Step)
    ensures r.chosen == Some(value)
    ensures !r.state.open && r.state.query == value && r.state.highlight == -1
  {
    Step(FontState(false, value, -1), Some(value))
  }

  datatype Key = ArrowDown | ArrowUp | Enter | Escape | OtherKey

  /** `onKeyDown`. */
  function KeyDown(s: FontState, options: seq<string>, key: Key): (r: Step)
    ensures var n := |Filtered(options, s.query)|;
      key == ArrowDown ==>
        && r.chosen == None && r.state.open && r.state.query == s.query
        && r.state.highlight <= n - 1
        && (s.highlight + 1 <= n - 1 ==> r.state.highlight == s.highlight + 1)
        && (s.highlight + 1 > n - 1 ==> r.state.highlight == n - 1)
    ensures key == ArrowUp ==>
      && r.chosen == None && r.state.open == s.open && r.state.query == s.query
      && r.state.highlight >= 0
      && (s.highlight >= 1 ==> r.state.highlight == s.highlight - 1)
      && (s.highlight < 1 ==> r.state.highlight == 0)
    ensures var f := Filtered(options, s.query);
      key == Enter ==>
        && (0 <= s.highlight < |f| ==> r == Choose(f[s.highlight]))
        && (!(0 <= s.highlight < |f|) && Trim(s.query) != "" ==> r == Choose(Trim(s.query)))
        && (!(0 <= s.highlight < |f|) && Trim(s.query) == "" ==> r == Step(s, None))
    ensures key == Escape ==> r == Step(FontState(false, s.query, -1), None)
    ensures key == OtherKey ==> r == Step(s, None)
  {
    var f := Filtered(options, s.query);
    match key
    case ArrowDown =>
      var h := if s.highlight + 1 < |f| - 1 then s.highlight + 1 else |f| - 1;
      Step(s.(open := true, highlight := h), None)
    case ArrowUp =>
      var h := if s.highlight - 1 > 0 then s.highlight - 1 else 0;
      Step(s.(highlight := h), None)
    case Enter =>
      if 0 <= s.highlight < |f| then Choose(f[s.highlight])
      else if Trim(s.query) != "" then Choose(Trim(s.query))
      else Step(s, None)
    case Escape => Step(s.(open := false, highlight := -1), None)
    case OtherKey => Step(s, None)
  }

  /** The field's `onChange`: the typed text becomes the query, the list opens, the highlight goes. */
  function Type(s: FontState, text: string): (r: FontState)
    ensures r.open && r.query == text && r.highlight == -1
  {
    FontState(true, text, -1)
  }

  /** The effect on a new `value` prop: the field shows it. The list and the
      highlight are left alone. */
  function ValueChange(s: FontState, value: string): (r: FontState)
    ensures r.query == value && r.open == s.open && r.highlight == s.highlight
  {
    s.(query := value)
  }

  function Focus(s: FontState): (r: FontState)
    ensures r.open && r.query == s.query && r.highlight == s.highlight
  {
    s.(open := true)
  }

  /** Pointing at row `index` of the list highlights it; leaving a row clears the highlight. */
  function MouseEnter(s: FontState, options: seq<string>, index: nat): (r: FontState)
    requires index < |Filtered(options, s.query)|
    ensures r.highlight == index && r.open == s.open && r.query == s.query
  {
    s.(highlight := index)
  }

  function MouseLeave(s: FontState): (r: FontState)
    ensures r.highlight == -1 && r.open == s.open && r.query == s.query
  {
    s.(highlight := -1)
  }

  /** Clicking row `index` chooses its font. */
  function Click(s: FontState, options: seq<string>, index: nat): (r: Step)
    requires index < |Filtered(options, s.query)|
    ensures r.chosen == Some(Filtered(options, s.query)[index])
    ensures !r.state.open && r.state.highlight == -1 && r.state.query == r.chosen.value
  {
    Choose(Filtered(options, s.query)[index])
  }

  /** The document click listener: a click outside the component closes the
      list and drops the highlight, as Escape does. */
  function ClickOutside(s: FontState): (r: FontState)
    ensures !r.open && r.highlight == -1 && r.query == s.query
  {
    s.(open := false, highlight := -1)
  }

  /** The highlight is -1 or a row of the list, except that ArrowUp on an
      empty list leaves it at 0. */
  predicate HighlightBounded(s: FontState, options: seq<string>)
  {
    var n := |Filtered(options, s.query)|;
    -1 <= s.highlight && (s.highlight < n || s.highlight == 0)
  }

  /** Every key, every keystroke in the field, focus and the mouse keep the
      highlight bounded by the list on screen. */
  lemma KeyDownKeepsBounded(s: FontState, options: seq<string>, key: Key)
    requires HighlightBounded(s, options)
    ensures HighlightBounded(KeyDown(s, options, key).state, options)
  {
  }

  lemma OtherStepsKeepBounded(s: FontState, options: seq<string>, text: string, index: nat)
    requires HighlightBounded(s, options)
    ensures HighlightBounded(Type(s, text), options)
    ensures HighlightBounded(Focus(s), options)
    ensures HighlightBounded(MouseLeave(s), options)
    ensures HighlightBounded(ClickOutside(s), options)
    ensures index < |Filtered(options, s.query)| ==> HighlightBounded(MouseEnter(s, options, index), options)
    ensures index < |Filtered(options, s.query)| ==> HighlightBounded(Click(s, options, index).state, options)
  {
  }

  /** On a bounded highlight, Enter picks the highlighted row exactly when
      there is one: a highlight of 0 with an empty list falls through to the query. */
  lemma EnterPicksHighlighted(s: FontState, options: seq<string>)
    requires HighlightBounded(s, options) && s.highlight >= 0 && |Filtered(options, s.query)| > 0
    ensures KeyDown(s, options, Enter).chosen == Some(Filtered(options, s.query)[s.highlight])
  {
  }

  /** A new `value` prop keeps the old highlight while the list changes under
      it: with a highlight on the second of two fonts, the value "Arial" leaves
      a one-row list and Enter picks the query rather than a row. */
  lemma ValueChangeUnbounds()
    ensures var options := ["Arial", "Verdana"];
      var s := FontState(true, "", 1);
      var t := ValueChange(s, "Arial");
      && HighlightBounded(s, options)
      && !HighlightBounded(t, options)
      && KeyDown(t, options, Enter).chosen == Some("Arial")
  {
    var options := ["Arial", "Verdana"];
    EmptyQueryListsAll(options);
    var la, lv, a := ToLower("Arial"), ToLower("Verdana"), "arial";
    assert la == a;
    assert StartsWith(la[0..], a);
    assert !Matches("Verdana", "Arial") by {
      assert lv == "verdana";
      forall i | 0 <= i <= |lv|
        ensures !StartsWith(lv[i..], a)
      {
        if i <= 2 {
          assert lv[i..][0] != a[0];
        } else {
          assert |lv[i..]| < |a|;
        }
      }
    }
    assert options[1..] == ["Verdana"];
    assert Filtered(options, "Arial") == ["Arial"];
    TrimOfTrimmed("Arial");
  }
}
