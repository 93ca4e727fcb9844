/**
 * The hero title's typewriter (script.js, class TypeWriter). Over a fixed
 * list of words it types the current word one character per tick, waits,
 * deletes it one character per tick and moves on to the next word. Each
 * tick rewrites the element's innerHTML and schedules the next tick after
 * a delay; here a tick returns that delay instead of arming a timer.
 */
module Typewriter {
  import opened Arith

  /** The mutable part of a TypeWriter: the text shown, the word counter and the direction. */
  datatype Typing = Typing(txt: string, wordIndex: nat, isDeleting: bool)

  /** What one call of `type()` produces: the next state and the delay of the next call. */
  datatype Tick = Tick(next: Typing, delay: int)

  const TypingDelay := 100
  const PauseBeforeNextWord := 500

  /** The pause on a fully typed word when the caller gives none. */
  const DefaultWait := 3000

  /** The word being typed: the word counter wraps around the list. */
  function CurrentWord(words: seq<string>, wordIndex: nat): (w: string)
    requires |words| > 0
    ensures w in words
    ensures wordIndex < |words| ==> w == words[wordIndex]
  {
    words[wordIndex % |words|]
  }

  /** The counter wraps: a full lap of the list comes back to the same word. */
  lemma CurrentWordWraps(words: seq<string>, i: nat)
    requires |words| > 0
    ensures CurrentWord(words, i + |words|) == CurrentWord(words, i)
  {
    var n := |words|;
    assert i + n == (i / n + 1) * n + i % n;
    ModUnique(i + n, n, i / n + 1, i % n);
  }

  /** JavaScript's `s.substring(0, n)`: the end index is clamped into [0, |s|]. */
  function Prefix(s: string, n: int): (r: string)
    ensures r <= s
    ensures |r| == if n <= 0 then 0 else if n >= |s| then |s| else n
  {
    if n <= 0 then [] else if n >= |s| then s else s[..n]
  }

  /** One call of `type()`. */
  function Step(words: seq<string>, wait: int, s: Typing): (t: Tick)
    requires |words| > 0
    ensures t.next.txt <= CurrentWord(words, t.next.wordIndex)
    ensures t.next.wordIndex == s.wordIndex || t.next.wordIndex == s.wordIndex + 1
  {
    var full := CurrentWord(words, s.wordIndex);
    var txt := if s.isDeleting then Prefix(full, |s.txt| - 1) else Prefix(full, |s.txt| + 1);
    var speed := if s.isDeleting then TypingDelay / 2 else TypingDelay;
    if !s.isDeleting && txt == full then
      Tick(Typing(txt, s.wordIndex, true), wait)
    else if s.isDeleting && txt == [] then
      Tick(Typing(txt, s.wordIndex + 1, false), PauseBeforeNextWord)
    else
      Tick(Typing(txt, s.wordIndex, s.isDeleting), speed)
  }

  /** The state after n consecutive ticks. */
  function Run(words: seq<string>, wait: int, s: Typing, n: nat): (r: Typing)
    requires |words| > 0
    ensures s.wordIndex <= r.wordIndex <= s.wordIndex + n
    ensures n > 0 ==> r.txt <= CurrentWord(words, r.wordIndex)
    decreases n
  {
    if n == 0 then s else Run(words, wait, Step(words, wait, s).next, n - 1)
  }

  /** The markup written into the element: the text wrapped in a span of class "txt". */
  function Render(txt: string): (html: string)
    ensures |html| == |OpenTag| + |txt| + |CloseTag|
    ensures html[..|OpenTag|] == OpenTag && html[|html| - |CloseTag|..] == CloseTag
    ensures html[|OpenTag|..|html| - |CloseTag|] == txt
  {
    OpenTag + txt + CloseTag
  }

  const OpenTag: string := "<span class=\"txt\">"
  const CloseTag: string := "</span>"

  /** A typing tick appends the next character of the word; reaching the whole word turns to deleting after `wait`. */
  lemma TypingTick(words: seq<string>, wait: int, s: Typing)
    requires |words| > 0 && !s.isDeleting
    requires s.txt <= CurrentWord(words, s.wordIndex) && |s.txt| < |CurrentWord(words, s.wordIndex)|
    ensures var w, t := CurrentWord(words, s.wordIndex), Step(words, wait, s);
      && t.next.txt == s.txt + [w[|s.txt|]]
      && t.next.wordIndex == s.wordIndex
      && (t.next.isDeleting <==> |t.next.txt| == |w|)
      && t.delay == (if |t.next.txt| == |w| then wait else 100)
  {
  }

  /** A deleting tick drops the last character; reaching "" moves to the next word after 500 ms. */
  lemma DeletingTick(words: seq<string>, wait: int, s: Typing)
    requires |words| > 0 && s.isDeleting
    requires s.txt <= CurrentWord(words, s.wordIndex) && |s.txt| > 0
    ensures var t := Step(words, wait, s);
      && t.next.txt == s.txt[..|s.txt| - 1]
      && (t.next.wordIndex == s.wordIndex + 1 <==> t.next.txt == [])
      && (t.next.isDeleting <==> t.next.txt != [])
      && t.delay == (if t.next.txt == [] then 500 else 50)
  {
  }

  /** The word counter moves, by exactly one, only on the tick that deletes down to "". */
  lemma WordIndexAdvancesOnlyWhenCleared(words: seq<string>, wait: int, s: Typing)
    requires |words| > 0
    ensures var t := Step(words, wait, s);
      t.next.wordIndex != s.wordIndex <==> s.isDeleting && t.next.txt == []
  {
  }

  /** Ticks compose. */
  lemma {:induction false} RunAdd(words: seq<string>, wait: int, s: Typing, a: nat, b: nat)
    requires |words| > 0
    ensures Run(words, wait, s, a + b) == Run(words, wait, Run(words, wait, s, a), b)
    decreases a
  {
    if a > 0 {
      var s' := Step(words, wait, s).next;
      var m: nat := a - 1;
      RunAdd(words, wait, s', m, b);
      assert Run(words, wait, s, m + 1) == Run(words, wait, s', m);
      assert Run(words, wait, s, (m + b) + 1) == Run(words, wait, s', m + b);
    }
  }

  /** After any number of ticks from a consistent state the text is still a prefix of the current word. */
  lemma {:induction false} RunKeepsPrefix(words: seq<string>, wait: int, s: Typing, n: nat)
    requires |words| > 0 && s.txt <= CurrentWord(words, s.wordIndex)
    ensures var r := Run(words, wait, s, n);
      r.txt <= CurrentWord(words, r.wordIndex) && s.wordIndex <= r.wordIndex <= s.wordIndex + n
    decreases n
  {
    if n > 0 {
      RunKeepsPrefix(words, wait, Step(words, wait, s).next, n - 1);
    }
  }

  /** From the first k characters, typing completes the word in |w| - k ticks and turns to deleting. */
  lemma {:induction false} TypesWholeWord(words: seq<string>, wait: int, s: Typing, k: nat)
    requires |words| > 0 && !s.isDeleting
    requires k < |CurrentWord(words, s.wordIndex)| && s.txt == CurrentWord(words, s.wordIndex)[..k]
    ensures Run(words, wait, s, |CurrentWord(words, s.wordIndex)| - k) ==
            Typing(CurrentWord(words, s.wordIndex), s.wordIndex, true)
    decreases |CurrentWord(words, s.wordIndex)| - k
  {
    var w := CurrentWord(words, s.wordIndex);
    TypingTick(words, wait, s);
    var s' := Step(words, wait, s).next;
    assert s'.txt == w[..k + 1];
    if k + 1 < |w| {
      TypesWholeWord(words, wait, s', k + 1);
    } else {
      assert w[..k + 1] == w;
    }
  }

  /** From the first k >= 1 characters while deleting, k ticks clear the text and select the next word. */
  lemma {:induction false} DeletesWholeWord(words: seq<string>, wait: int, s: Typing, k: nat)
    requires |words| > 0 && s.isDeleting
    requires 0 < k <= |CurrentWord(words, s.wordIndex)| && s.txt == CurrentWord(words, s.wordIndex)[..k]
    ensures Run(words, wait, s, k) == Typing("", s.wordIndex + 1, false)
    decreases k
  {
    var w := CurrentWord(words, s.wordIndex);
    DeletingTick(words, wait, s);
    var s' := Step(words, wait, s).next;
    if k > 1 {
      assert s'.txt == w[..k - 1];
      DeletesWholeWord(words, wait, s', k - 1);
    }
  }

  /** Starting from "" in typing mode, a word of length L >= 1 takes 2L ticks (an empty word 2) to type, delete and advance. */
  lemma {:induction false} FullCycle(words: seq<string>, wait: int, i: nat)
    requires |words| > 0
    ensures var L := |CurrentWord(words, i)|;
      Run(words, wait, Typing("", i, false), if L == 0 then 2 else 2 * L) == Typing("", i + 1, false)
  {
    var w := CurrentWord(words, i);
    var s := Typing("", i, false);
    if |w| == 0 {
      var s1 := Step(words, wait, s).next;
      assert s1 == Typing("", i, true);
      assert Step(words, wait, s1).next == Typing("", i + 1, false);
      assert Run(words, wait, s1, 1) == Run(words, wait, Typing("", i + 1, false), 0);
    } else {
      TypeThenDelete(words, wait, i);
    }
  }

  /** A non-empty word is typed in |w| ticks and deleted in |w| more. */
  lemma TypeThenDelete(words: seq<string>, wait: int, i: nat)
    requires |words| > 0 && |CurrentWord(words, i)| > 0
    ensures var n := |CurrentWord(words, i)|;
      Run(words, wait, Typing("", i, false), n + n) == Typing("", i + 1, false)
  {
    var w := CurrentWord(words, i);
    var n := |w|;
    var s := Typing("", i, false);
    assert w[..0] == "";
    TypesWholeWord(words, wait, s, 0);
    var mid := Typing(w, i, true);
    assert w[..n] == w;
    DeletesWholeWord(words, wait, mid, n);
    RunAdd(words, wait, s, n, n);
  }

  /** The constructor's first tick turns to deleting exactly when the first word has at most one character. */
  lemma FirstTickFlipsOnlyShortWords(words: seq<string>, wait: int)
    requires |words| > 0
    ensures Step(words, wait, Typing("", 0, false)).next.isDeleting <==> |words[0]| <= 1
  {
  }

  /**
   * Because the constructor clears the flag its first tick set, a one-character first word is
   * shown in full for two ticks, each followed by the `wait` pause, before it is deleted.
   */
  lemma OneCharFirstWordWaitsTwice(words: seq<string>, wait: int)
    requires |words| > 0 && |words[0]| == 1
    ensures var first := Step(words, wait, Typing("", 0, false));
      && first == Tick(Typing(words[0], 0, true), wait)
      && Step(words, wait, first.next.(isDeleting := false)) == Tick(Typing(words[0], 0, true), wait)
  {
  }

  /**
   * An instance of TypeWriter. `html` is the element's innerHTML; `scheduledDelay`
   * is the delay of the timer the last tick armed.
   */
  class TypeWriter {
    const words: seq<string>
    const wait: int
    var txt: string
    var wordIndex: nat
    var isDeleting: bool
    var html: string
    var scheduledDelay: int

    predicate Valid()
      reads this
    {
      |words| > 0 && txt <= CurrentWord(words, wordIndex)
    }

    function State(): Typing
      reads this
    {
      Typing(txt, wordIndex, isDeleting)
    }

    /**
     * `new TypeWriter(el, words, wait)`: starts from "" at word 0 and runs one tick before
     * `isDeleting` is ever assigned (undefined, so falsy), then forces `isDeleting` to false.
     */
    constructor (words: seq<string>, wait: int := DefaultWait)
      requires |words| > 0
      ensures Valid() && this.words == words && this.wait == wait
      ensures var t := Step(words, wait, Typing("", 0, false));
        && txt == t.next.txt && wordIndex == t.next.wordIndex && !isDeleting
        && scheduledDelay == t.delay
      ensures html == Render(txt)
    {
      this.words := words;
      this.wait := wait;
      txt := "";
      wordIndex := 0;
      isDeleting := false;
      html := "";
      scheduledDelay := 0;
      new;
      Type();
      isDeleting := false;
    }

    /** `type()`: one tick. */
    method Type()
      requires Valid()
      modifies this
      ensures Valid()
      ensures var t := Step(words, wait, old(State()));
        State() == t.next && scheduledDelay == t.delay
      ensures html == Render(txt)
    {
      var current := wordIndex % |words|;
      var fullTxt := words[current];
      if isDeleting {
        txt := Prefix(fullTxt, |txt| - 1);
      } else {
        txt := Prefix(fullTxt, |txt| + 1);
      }
      html := Render(txt);
      var typeSpeed := TypingDelay;
      if isDeleting {
        typeSpeed := typeSpeed / 2;
      }
      if !isDeleting && txt == fullTxt {
        typeSpeed := wait;
        isDeleting := true;
      } else if isDeleting && txt == [] {
        isDeleting := false;
        wordIndex := wordIndex + 1;
        typeSpeed := PauseBeforeNextWord;
      }
      scheduledDelay := typeSpeed;
    }
  }
}
