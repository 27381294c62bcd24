/**
 * The stateful widgets of js/script.js: the testimonial slider, the FAQ accordion, the
 * required-field check on blur, and the language buttons. Each is a class whose fields
 * are the widget's state; a `bool` array stands for the `active` (or `error`) class of a
 * list of elements, one entry per element.
 */
module Widgets {
  import opened Wrappers
  import opened JsText

  // ---------------------------------------------------------------- testimonial slider

  /** The slider's `currentIndex`: a number, or NaN once `% testimonials.length` has run with no cards. */
  datatype SlideIndex = At(i: nat) | NaN

  /** `(currentIndex + 1) % testimonials.length`. */
  function Advance(k: SlideIndex, n: nat): (r: SlideIndex)
    ensures r.NaN? <==> k.NaN? || n == 0
    ensures r.At? ==> r.i < n
    ensures k.At? && k.i + 1 < n ==> r == At(k.i + 1)
    ensures k.At? && k.i + 1 == n ==> r == At(0)
  {
    if k.NaN? || n == 0 then NaN else At((k.i + 1) % n)
  }

  /** Where `steps` autoplay ticks take the slider. */
  function AdvanceN(k: SlideIndex, n: nat, steps: nat): SlideIndex
    decreases steps
  {
    if steps == 0 then k else AdvanceN(Advance(k, n), n, steps - 1)
  }

  /** Ticks compose: `a + b` ticks are `a` ticks followed by `b` more. */
  lemma {:induction false} AdvanceNSplit(k: SlideIndex, n: nat, a: nat, b: nat)
    ensures AdvanceN(k, n, a + b) == AdvanceN(AdvanceN(k, n, a), n, b)
    decreases a
  {
    if a > 0 {
      AdvanceNSplit(Advance(k, n), n, a - 1, b);
    }
  }

  /** Ticks that stay short of the last card move one card each. */
  lemma {:induction false} AdvanceNWithin(i: nat, n: nat, steps: nat)
    requires i + steps < n
    ensures AdvanceN(At(i), n, steps) == At(i + steps)
    decreases steps
  {
    if steps > 0 {
      AdvanceNWithin(i + 1, n, steps - 1);
    }
  }

  /** The slider comes back to where it started after one tick per card. */
  lemma AdvanceCycles(i: nat, n: nat)
    requires i < n
    ensures AdvanceN(At(i), n, n) == At(i)
  {
    var toLast := n - 1 - i;
    AdvanceNWithin(i, n, toLast);
    AdvanceNSplit(At(i), n, toLast, 1 + i);
    AdvanceNSplit(At(n - 1), n, 1, i);
    assert AdvanceN(At(n - 1), n, 1) == At(0);
    AdvanceNWithin(0, n, i);
  }

  class TestimonialSlider {
    const cards: array<bool>
    const dots: array<bool>
    var current: SlideIndex

    /** After `showTestimonial(k)`: exactly card k and dot k carry `active`. */
    ghost predicate Shows(k: SlideIndex)
      reads cards, dots
    {
      && (forall j :: 0 <= j < cards.Length ==> cards[j] == (k == At(j)))
      && (forall j :: 0 <= j < dots.Length ==> dots[j] == (k == At(j)))
    }

    constructor (cardStates: seq<bool>, dotStates: seq<bool>)
      ensures cards[..] == cardStates && dots[..] == dotStates && current == At(0)
      ensures cards != dots && fresh(cards) && fresh(dots)
    {
      cards := new bool[|cardStates|](j requires 0 <= j < |cardStates| => cardStates[j]);
      dots := new bool[|dotStates|](j requires 0 <= j < |dotStates| => dotStates[j]);
      current := At(0);
    }

    /** `showTestimonial(k)`: toggle `active` on each card and each dot. */
    method Show(k: SlideIndex)
      requires cards != dots
      modifies cards, dots
      ensures Shows(k)
    {
      var j := 0;
      while j < cards.Length
        invariant 0 <= j <= cards.Length
        invariant forall m :: 0 <= m < j ==> cards[m] == (k == At(m))
      {
        cards[j] := k == At(j);
        j := j + 1;
      }
      j := 0;
      while j < dots.Length
        invariant 0 <= j <= dots.Length
        invariant forall m :: 0 <= m < j ==> dots[m] == (k == At(m))
        invariant forall m :: 0 <= m < cards.Length ==> cards[m] == (k == At(m))
      {
        dots[j] := k == At(j);
        j := j + 1;
      }
    }

    /** `nextTestimonial`: the autoplay tick. */
    method Next()
      requires cards != dots
      modifies this, cards, dots
      ensures current == Advance(old(current), cards.Length)
      ensures Shows(current)
    {
      current := Advance(current, cards.Length);
      Show(current);
    }

    /** A click on dot `d`: that card becomes current (autoplay restarts, which is not modelled). */
    method ClickDot(d: nat)
      requires d < dots.Length && cards != dots
      modifies this, cards, dots
      ensures current == At(d)
      ensures Shows(current)
    {
      current := At(d);
      Show(current);
    }
  }

  // ---------------------------------------------------------------- FAQ accordion

  /** The items' `active` flags after a click on item `k`: all closed, then `k` opened unless it was open. */
  function AfterClick(s: seq<bool>, k: nat): (t: seq<bool>)
    requires k < |s|
    ensures |t| == |s|
  {
    seq(|s|, j requires 0 <= j < |s| => j == k && !s[k])
  }

  function CountTrue(s: seq<bool>): nat {
    if s == [] then 0 else (if s[0] then 1 else 0) + CountTrue(s[1..])
  }

  /** A row of flags in which only position `k` may be set has at most one set. */
  lemma {:induction false} OnlyOneCandidate(s: seq<bool>, k: int)
    requires forall j :: 0 <= j < |s| && s[j] ==> j == k
    ensures CountTrue(s) <= 1
    ensures k < 0 ==> CountTrue(s) == 0
  {
    if s != [] {
      assert forall j :: 0 <= j < |s| - 1 && s[1..][j] ==> j == k - 1;
      OnlyOneCandidate(s[1..], k - 1);
    }
  }

  /** After any click at most one item is open. */
  lemma AtMostOneOpen(s: seq<bool>, k: nat)
    requires k < |s|
    ensures CountTrue(AfterClick(s, k)) <= 1
  {
    OnlyOneCandidate(AfterClick(s, k), k);
  }

  /**
   * Clicking the open item closes everything; clicking a closed one leaves only it open;
   * a second click on the same item returns it to its first state with every other item closed.
   */
  lemma ClickToggles(s: seq<bool>, k: nat)
    requires k < |s|
    ensures s[k] ==> CountTrue(AfterClick(s, k)) == 0
    ensures !s[k] ==> AfterClick(s, k)[k] && CountTrue(AfterClick(s, k)) == 1
    ensures forall j :: 0 <= j < |s| ==> AfterClick(AfterClick(s, k), k)[j] == (j == k && s[k])
  {
    var t := AfterClick(s, k);
    if s[k] {
      OnlyOneCandidate(t, -1);
    } else {
      OnlyOneCandidate(t, k);
      CountOfSet(t, k);
    }
  }

  lemma {:induction false} CountOfSet(s: seq<bool>, k: nat)
    requires k < |s| && s[k]
    ensures CountTrue(s) >= 1
  {
    if k > 0 {
      assert s[1..][k - 1] == s[k];
      CountOfSet(s[1..], k - 1);
    }
  }

  class FaqAccordion {
    const active: array<bool>

    constructor (states: seq<bool>)
      ensures active[..] == states && fresh(active)
    {
      active := new bool[|states|](j requires 0 <= j < |states| => states[j]);
    }

    /** A click on item `k`'s question. */
    method Click(k: nat)
      requires k < active.Length
      modifies active
      ensures active[..] == AfterClick(old(active[..]), k)
    {
      var wasActive := active[k];
      var j := 0;
      while j < active.Length
        invariant 0 <= j <= active.Length
        invariant forall m :: 0 <= m < j ==> !active[m]
      {
        active[j] := false;
        j := j + 1;
      }
      if !wasActive {
        active[k] := true;
      }
    }
  }

  // ---------------------------------------------------------------- required-field check

  /** The blur rule: a required field whose trimmed value is empty is in error. */
  predicate BlurError(required: bool, value: string) {
    required && Trim(value) == []
  }

  /** The blur rule marks a field exactly when it is required and holds nothing but white space. */
  lemma BlurErrorIff(required: bool, value: string)
    ensures BlurError(required, value) <==> required && forall i :: 0 <= i < |value| ==> IsJsSpace(value[i])
  {
    TrimEmptyIff(value);
  }

  const RequiredMessage := "This field is required"

  /** A `.form-control` and the `error` state of the `.form-group` around it, if there is one. */
  class FormField {
    const required: bool
    const inGroup: bool
    const hasMessage: bool
    var value: string
    var error: bool
    var message: string

    constructor (required: bool, inGroup: bool, hasMessage: bool, value: string)
      ensures this.required == required && this.inGroup == inGroup && this.hasMessage == hasMessage
      ensures this.value == value && !error && message == ""
    {
      this.required := required;
      this.inGroup := inGroup;
      this.hasMessage := hasMessage;
      this.value := value;
      error := false;
      message := "";
    }

    /** The blur handler: show the error (and its text, when the group has a message element) or clear it. */
    method Blur()
      modifies this
      ensures value == old(value)
      ensures error == if inGroup then BlurError(required, value) else old(error)
      ensures message == if inGroup && hasMessage && BlurError(required, value) then RequiredMessage else old(message)
    {
      if !inGroup {
        return;
      }
      if required && Trim(value) == [] {
        error := true;
        if hasMessage {
          message := RequiredMessage;
        }
      } else {
        error := false;
      }
    }

    /** Typing: the value changes and a group in error is cleared (its message text stays). */
    method Input(v: string)
      modifies this
      ensures value == v && message == old(message)
      ensures error == (old(error) && !inGroup)
    {
      value := v;
      if inGroup && error {
        error := false;
      }
    }
  }

  // ---------------------------------------------------------------- language buttons

  /** `localStorage.getItem('preferredLanguage') || 'en'`. */
  function InitialLanguage(saved: Option<string>): (lang: string)
    ensures saved.Some? && saved.value != "" ==> lang == saved.value
    ensures saved.None? || saved.value == "" ==> lang == "en"
  {
    if saved.Some? && saved.value != "" then saved.value else "en"
  }

  class LanguageToggle {
    const langs: seq<string>
    const active: array<bool>
    var current: string
    var saved: Option<string>

    /** Exactly the buttons whose `data-lang` is `lang` carry `active`. */
    ghost predicate Marks(lang: string)
      reads active
    {
      active.Length == |langs| && forall i :: 0 <= i < |langs| ==> active[i] == (langs[i] == lang)
    }

    ghost predicate Valid()
      reads this, active
    {
      Marks(current)
    }

    constructor (langs: seq<string>, saved: Option<string>)
      ensures this.langs == langs && this.saved == saved
      ensures current == InitialLanguage(saved)
      ensures Valid() && fresh(active)
    {
      this.langs := langs;
      this.saved := saved;
      current := InitialLanguage(saved);
      active := new bool[|langs|];
      new;
      MarkButtons(current);
    }

    /** `updateLanguageButtons(lang)`. */
    method MarkButtons(lang: string)
      requires active.Length == |langs|
      modifies active
      ensures Marks(lang)
    {
      var i := 0;
      while i < active.Length
        invariant 0 <= i <= active.Length
        invariant forall m :: 0 <= m < i ==> active[m] == (langs[m] == lang)
      {
        active[i] := langs[i] == lang;
        i := i + 1;
      }
    }

    /** A click on button `b`: nothing when its language is current; otherwise switch, save and re-mark. */
    method Click(b: nat)
      requires Valid() && b < |langs|
      modifies this, active
      ensures Valid()
      ensures langs[b] == old(current) ==>
        current == old(current) && saved == old(saved) && active[..] == old(active[..])
      ensures langs[b] != old(current) ==> current == langs[b] && saved == Some(langs[b])
    {
      var lang := langs[b];
      if lang == current {
        return;
      }
      current := lang;
      saved := Some(lang);
      MarkButtons(lang);
    }
  }
}
