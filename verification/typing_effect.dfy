/**
 * The hero title's typing effect: one interval tick appends the next
 * character of the trimmed title, and once the typing has reached the phrase
 * "integral para su empresa" the part from the phrase onward is rendered
 * highlighted.
 */
module TypingEffect {
  import opened Text

  const Phrase: string := "integral para su empresa"

  /** What the typing span shows: plain text, or a plain part followed by a highlighted part. */
  datatype Render = Plain(text: string) | Highlighted(before: string, highlight: string)

  /** The text a rendering shows on screen. */
  function Shown(r: Render): string {
    match r
    case Plain(s) => s
    case Highlighted(b, h) => b + h
  }

  /**
   * The state of the effect: the trimmed title, the text typed so far, the
   * index of the next character, and whether the interval is still set.
   */
  datatype Typing = Typing(text: string, current: string, index: nat, running: bool)

  /**
   * What the span holds in state `t`: empty before the first tick, and
   * afterwards the rendering made by the last tick that typed a character,
   * the one for character `index - 1`.
   */
  function View(t: Typing): Render {
    if t.index == 0 then Plain("") else Rendering(t.text, t.index - 1, t.current)
  }

  /**
   * The state right after the span is emptied, for a title whose text content
   * is `content`: the interval is set, nothing is typed yet, and the text to
   * type is the trimmed content.
   */
  function Start(content: string): (t: Typing)
    ensures Inv(t) && t.running && t.index == 0 && t.text == Trim(content)
    ensures Shown(View(t)) == ""
  {
    Typing(Trim(content), "", 0, true)
  }

  /**
   * The rendering after typing character `index` of `text`, `current` being
   * the text typed so far: plain before the phrase is reached (or when the
   * text has no phrase), and from then on the text before the phrase followed
   * by the typed part from the phrase's start, highlighted.
   */
  function Rendering(text: string, index: nat, current: string): (r: Render)
    ensures var start := IndexOf(text, Phrase);
      start == -1 || index < start ==> r == Plain(current)
    ensures var start := IndexOf(text, Phrase);
      0 <= start <= index < |text| ==> r == Highlighted(text[..start], text[start..index + 1])
  {
    var start := IndexOf(text, Phrase);
    if start != -1 && index >= start then
      var before := Substring(text, 0, start);
      var highlightText := Substring(text, start, |text|);
      var currentHighlight := Substring(highlightText, 0, index - |before| + 1);
      HighlightSlice(text, start, index);
      if |currentHighlight| > 0 then Highlighted(before, currentHighlight) else Plain(current)
    else Plain(current)
  }

  lemma HighlightSlice(text: string, start: int, index: int)
    requires 0 <= start <= |text|
    ensures start <= index < |text| ==> text[start..][..index - start + 1] == text[start..index + 1]
  {
  }

  /**
   * One run of the interval callback: while characters remain it types the
   * next one and re-renders, once all are typed it clears the interval, and
   * after that it does nothing.
   */
  function Tick(t: Typing): (r: Typing)
    ensures r.text == t.text
    ensures !t.running ==> r == t
    ensures t.running && t.index < |t.text| ==>
      && r.running && r.index == t.index + 1 && r.current == t.current + [t.text[t.index]]
    ensures t.running && |t.text| <= t.index ==>
      !r.running && r.index == t.index && r.current == t.current
  {
    if !t.running then t
    else if t.index < |t.text| then
      t.(current := t.current + [t.text[t.index]], index := t.index + 1)
    else t.(running := false)
  }

  /**
   * What the span holds after a tick: the rendering for the character just
   * typed, or, once every character is typed, what it held before.
   */
  lemma TickRenders(t: Typing)
    ensures t.running && t.index < |t.text| ==> View(Tick(t)) == Rendering(t.text, t.index, Tick(t).current)
    ensures !(t.running && t.index < |t.text|) ==> View(Tick(t)) == View(t)
  {
  }

  /** `n` runs of the interval callback. */
  function Ticks(t: Typing, n: nat): Typing
    decreases n
  {
    if n == 0 then t else Ticks(Tick(t), n - 1)
  }

  /** What holds of every state the effect reaches: the first `index` characters are typed. */
  predicate Inv(t: Typing) {
    t.index <= |t.text| && t.current == t.text[..t.index]
  }

  /** A tick types the next character, and clears the interval once all are typed. */
  lemma TickStep(t: Typing)
    requires Inv(t)
    ensures Inv(Tick(t))
    ensures t.running && t.index < |t.text| ==> Tick(t).index == t.index + 1 && Tick(t).running
    ensures t.running && t.index == |t.text| ==> !Tick(t).running && Tick(t).current == t.current
  {
    if t.running && t.index < |t.text| {
      TickAdvance(t);
    }
  }

  lemma TickAdvance(t: Typing)
    requires Inv(t) && t.running && t.index < |t.text|
    ensures Inv(Tick(t)) && Tick(t).index == t.index + 1 && Tick(t).running
  {
    assert t.text[..t.index + 1] == t.text[..t.index] + [t.text[t.index]];
  }

  /** In every reachable state the span shows exactly the typed text. */
  lemma ViewShown(t: Typing)
    requires Inv(t)
    ensures Shown(View(t)) == t.current
  {
    if t.index > 0 {
      var i := t.index - 1;
      var start := IndexOf(t.text, Phrase);
      if start != -1 && i >= start {
        TypedSplit(t.text, start, i);
      }
    }
  }

  /**
   * Once typing has reached the phrase, the tick shows the text before the
   * phrase plain and a non-empty highlighted part that, joined to it, is all
   * the typed text; the plain fallback of that branch is never taken.
   */
  lemma HighlightShown(t: Typing)
    requires Inv(t) && t.running && t.index < |t.text|
    requires IndexOf(t.text, Phrase) != -1 && t.index >= IndexOf(t.text, Phrase)
    ensures var start := IndexOf(t.text, Phrase);
      View(Tick(t)) == Highlighted(t.text[..start], t.text[start..t.index + 1])
    ensures View(Tick(t)).highlight != []
    ensures Shown(View(Tick(t))) == Tick(t).current
  {
    var start := IndexOf(t.text, Phrase);
    TypedSplit(t.text, start, t.index);
    assert t.text[..t.index + 1] == t.text[..t.index] + [t.text[t.index]];
  }

  /** The text up to and including character `i`, split at `start`. */
  lemma TypedSplit(text: string, start: int, i: int)
    requires 0 <= start <= i < |text|
    ensures text[..start] + text[start..i + 1] == text[..i + 1]
  {
  }

  /** While the phrase is being typed, the highlighted part is the typed prefix of the phrase. */
  lemma HighlightIsPhrasePrefix(t: Typing)
    requires Inv(t) && t.running && t.index < |t.text|
    requires IndexOf(t.text, Phrase) != -1 && t.index >= IndexOf(t.text, Phrase)
    requires t.index < IndexOf(t.text, Phrase) + |Phrase|
    ensures View(Tick(t)).highlight == Phrase[..t.index + 1 - IndexOf(t.text, Phrase)]
  {
    HighlightShown(t);
    var start := IndexOf(t.text, Phrase);
    OccurrencePrefix(t.text, Phrase, start, t.index + 1 - start);
  }

  /** The first `k` characters of an occurrence of `needle` are the first `k` of `needle`. */
  lemma OccurrencePrefix(hay: string, needle: string, start: int, k: int)
    requires OccursAt(hay, needle, start) && 0 <= k <= |needle|
    ensures hay[start..start + k] == needle[..k]
  {
    assert hay[start..start + k] == hay[start..start + |needle|][..k];
  }

  /** After `i` ticks, for `i` up to the length of the trimmed title, exactly its first `i` characters are typed and shown. */
  lemma TypedPrefix(content: string, i: nat)
    requires i <= |Trim(content)|
    ensures var t := Ticks(Start(content), i);
      Inv(t) && t.running && t.text == Trim(content) && t.index == i
      && t.current == Trim(content)[..i] && Shown(View(t)) == t.current
  {
    TicksFrom(Start(content), i);
    ViewShown(Ticks(Start(content), i));
  }

  lemma {:induction false} TicksFrom(t: Typing, i: nat)
    requires Inv(t) && t.running && t.index + i <= |t.text|
    ensures var u := Ticks(t, i);
      Inv(u) && u.running && u.index == t.index + i && u.text == t.text
    decreases i
  {
    if i > 0 {
      TickAdvance(t);
      TicksFrom(Tick(t), i - 1);
      TicksUnfold(t, i);
    }
  }

  /**
   * After more ticks than the trimmed title has characters, the interval is
   * cleared and the span shows the whole title, however many ticks follow.
   */
  lemma TypingStops(content: string, n: nat)
    ensures n > |Trim(content)| ==>
      var t := Ticks(Start(content), n);
      !t.running && t.current == Trim(content) && Shown(View(t)) == Trim(content)
  {
    if n > |Trim(content)| {
      RunToEnd(Start(content), n);
    }
  }

  /** From a running state with more ticks to go than characters left, the span ends up showing the whole text. */
  lemma RunToEnd(s: Typing, k: nat)
    requires Inv(s) && s.running && |s.text| - s.index < k
    ensures var t := Ticks(s, k);
      !t.running && t.current == s.text && Shown(View(t)) == s.text
  {
    RunFrom(s, k);
    ViewShown(Ticks(s, k));
  }

  /**
   * From a running state with `k` ticks to go, more than the characters left
   * to type, the whole text ends up typed and the interval cleared.
   */
  lemma {:induction false} RunFrom(t: Typing, k: nat)
    requires Inv(t) && t.running && |t.text| - t.index < k
    ensures var u := Ticks(t, k);
      Inv(u) && !u.running && u.current == t.text
    decreases k
  {
    TickStep(t);
    if t.index < |t.text| {
      RunFrom(Tick(t), k - 1);
    } else {
      assert t.text[..t.index] == t.text;
      Stopped(Tick(t), k - 1);
    }
  }

  lemma TicksUnfold(t: Typing, n: nat)
    requires n > 0
    ensures Ticks(t, n) == Ticks(Tick(t), n - 1)
  {
  }

  lemma {:induction false} Stopped(t: Typing, n: nat)
    requires !t.running
    ensures Ticks(t, n) == t
    decreases n
  {
    if n > 0 {
      Stopped(Tick(t), n - 1);
    }
  }
}
