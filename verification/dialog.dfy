/** The boxed message image of `dialog.py`: greedy word wrap with a line cap, the
    image size with or without the drop shadow, and where each wrapped line is drawn.
    Pixel drawing is not modelled; the font enters only through a text-width measure
    and the height of the string "Hg". */
module Dialog {
  import opened Text

  /** The text font as the layout sees it. */
  datatype Font = Font(measure: string -> int, lineHeight: int)

  /** Default line cap of the wrapper. */
  const MaxLines := 6

  // ---------------------------------------------------------------- wrapping

  /** A wrapped line either fits in `maxWidth` or is one word on its own. */
  predicate LineOk(line: seq<string>, maxWidth: int, measure: string -> int) {
    measure(Join(line)) <= maxWidth || |line| == 1
  }

  predicate FitsOrSingle(lines: seq<seq<string>>, maxWidth: int, measure: string -> int) {
    forall k :: 0 <= k < |lines| ==> LineOk(lines[k], maxWidth, measure)
  }

  predicate NonEmptyLines(lines: seq<seq<string>>) {
    forall k :: 0 <= k < |lines| ==> |lines[k]| > 0
  }

  /** The loop state of the wrapper: committed `lines` and the words of the line
      being built, `current`. Its text is `Join(current)` (see `CandidateText`). */
  datatype WrapState = WrapState(lines: seq<seq<string>>, current: seq<string>) {
    predicate Good(maxWidth: int, measure: string -> int) {
      && NonEmptyLines(lines)
      && FitsOrSingle(lines, maxWidth, measure)
      && (|current| == 0 || LineOk(current, maxWidth, measure))
    }
  }

  /** One pass of the loop body for word `w`: extend the current line when the
      candidate fits, otherwise commit the current line (if any) and start anew. */
  function Step(st: WrapState, w: string, maxWidth: int, measure: string -> int): (r: WrapState)
    ensures Flatten(r.lines) + r.current == Flatten(st.lines) + st.current + [w]
    ensures |r.current| > 0
    ensures |st.lines| <= |r.lines| <= |st.lines| + 1
    ensures |st.current| == 0 ==> r.lines == st.lines
    ensures st.Good(maxWidth, measure) ==> r.Good(maxWidth, measure)
  {
    var candidate := st.current + [w];
    if measure(Join(candidate)) <= maxWidth then
      WrapState(st.lines, candidate)
    else if |st.current| > 0 then
      FlattenAppend(st.lines, st.current);
      WrapState(st.lines + [st.current], [w])
    else
      WrapState(st.lines, [w])
  }

  /** After the loop: flush the current line when it is non-empty and a slot is left. */
  function Flush(st: WrapState, maxLines: int): (r: seq<seq<string>>)
    ensures Flatten(r) <= Flatten(st.lines) + st.current
    ensures |st.lines| < maxLines ==> Flatten(r) == Flatten(st.lines) + st.current
    ensures |r| <= |st.lines| + 1
    ensures |st.lines| >= maxLines ==> r == st.lines
    ensures r == st.lines || (|st.current| > 0 && r == st.lines + [st.current])
  {
    FlattenAppend(st.lines, st.current);
    if |st.current| > 0 && |st.lines| < maxLines then st.lines + [st.current] else st.lines
  }

  /** The loop of the wrapper from word `i` on. */
  function WrapFrom(words: seq<string>, i: nat, st: WrapState,
                    maxWidth: int, maxLines: int, measure: string -> int): (r: seq<seq<string>>)
    requires i <= |words|
    requires Flatten(st.lines) + st.current == words[..i]
    requires st.Good(maxWidth, measure)
    requires i == 0 ==> st.lines == [] && st.current == []
    requires i > 0 ==> |st.current| > 0 && |st.lines| < i && |st.lines| < maxLines - 1
    ensures NonEmptyLines(r)
    ensures FitsOrSingle(r, maxWidth, measure)
    ensures Flatten(r) <= words
    ensures maxLines >= 1 ==> |r| <= maxLines
    ensures maxLines < 1 ==> r == []
    ensures maxLines > |words| ==> Flatten(r) == words
    decreases |words| - i
  {
    if i == |words| then
      assert words[..i] == words;
      Flush(st, maxLines)
    else
      var st' := Step(st, words[i], maxWidth, measure);
      assert words[..i + 1] == words[..i] + [words[i]];
      if |st'.lines| >= maxLines - 1 then
        Flush(st', maxLines)
      else
        WrapFrom(words, i + 1, st', maxWidth, maxLines, measure)
  }

  /** The committed lines of `_wrap_text`, each as its list of words. */
  function WrapWords(words: seq<string>, maxWidth: int, maxLines: int, measure: string -> int): (r: seq<seq<string>>)
    ensures NonEmptyLines(r)
    ensures FitsOrSingle(r, maxWidth, measure)
    ensures Flatten(r) <= words
    ensures maxLines >= 1 ==> |r| <= maxLines
    ensures maxLines < 1 ==> r == []
    ensures maxLines > |words| ==> Flatten(r) == words
  {
    WrapFrom(words, 0, WrapState([], []), maxWidth, maxLines, measure)
  }

  /** `" ".join` applied to each line. */
  function JoinLines(lines: seq<seq<string>>): (r: seq<string>)
    ensures |r| == |lines|
    ensures forall k :: 0 <= k < |lines| ==> r[k] == Join(lines[k])
  {
    if |lines| == 0 then [] else [Join(lines[0])] + JoinLines(lines[1..])
  }

  /** The words of a list of text lines, in order. */
  function WordsOf(texts: seq<string>): seq<string> {
    if |texts| == 0 then [] else Split(texts[0]) + WordsOf(texts[1..])
  }

  lemma {:induction false} WordsOfJoinLines(lines: seq<seq<string>>)
    requires forall k :: 0 <= k < |lines| ==> AllWords(lines[k])
    ensures WordsOf(JoinLines(lines)) == Flatten(lines)
  {
    if |lines| > 0 {
      SplitJoin(lines[0]);
      assert JoinLines(lines)[1..] == JoinLines(lines[1..]);
      WordsOfJoinLines(lines[1..]);
    }
  }

  lemma FlattenWords(lines: seq<seq<string>>, words: seq<string>, k: nat)
    requires AllWords(words) && Flatten(lines) <= words && k < |lines|
    ensures AllWords(lines[k])
  {
    if k == 0 {
      assert forall m :: 0 <= m < |lines[0]| ==> lines[0][m] == Flatten(lines)[m];
    } else {
      assert Flatten(lines) == lines[0] + Flatten(lines[1..]);
      var rest := words[|lines[0]|..];
      assert Flatten(lines[1..]) <= rest;
      FlattenWords(lines[1..], rest, k - 1);
    }
  }

  /** `_wrap_text(draw, text, max_width, max_lines)`: greedy word wrap. */
  function WrapText(text: string, maxWidth: int, maxLines: int, measure: string -> int): (r: seq<string>)
    ensures maxLines >= 1 ==> |r| <= maxLines
    ensures maxLines < 1 ==> r == []
    ensures forall k :: 0 <= k < |r| ==> r[k] != ""
    ensures forall k :: 0 <= k < |r| ==> measure(r[k]) <= maxWidth || |Split(r[k])| == 1
    ensures WordsOf(r) <= Split(text)
    ensures maxLines > |Split(text)| ==> WordsOf(r) == Split(text)
  {
    var words := Split(text);
    var lines := WrapWords(words, maxWidth, maxLines, measure);
    var r := JoinLines(lines);
    forall k | 0 <= k < |lines|
      ensures AllWords(lines[k]) && r[k] != "" && Split(r[k]) == lines[k]
    {
      FlattenWords(lines, words, k);
      JoinTrimmed(lines[k]);
      SplitJoin(lines[k]);
    }
    WordsOfJoinLines(lines);
    r
  }

  /** The source builds each candidate line as `(current + " " + w).strip()`; for a line
      held as words this is exactly the words joined with one more word. */
  lemma CandidateText(current: seq<string>, w: string)
    requires AllWords(current) && IsWord(w)
    ensures Strip(Join(current) + " " + w) == Join(current + [w])
  {
    if |current| == 0 {
      assert Join(current) + " " + w == " " + w;
      assert [w] == current + [w];
      StripBlankPrefix(w);
    } else {
      JoinSnoc(current, w);
      assert AllWords(current + [w]);
      JoinTrimmed(current + [w]);
      StripTrimmed(Join(current + [w]));
    }
  }

  // ---------------------------------------------------------------- line placement

  /** One text line drawn at `(padding, y)`. */
  datatype PlacedLine = PlacedLine(y: int, text: string)

  /** Draws lines top-down from `y`, each `lineHeight + 2` below the previous, and
      stops at the first line whose bottom would pass `limit`. */
  function Place(lines: seq<string>, y: int, lineHeight: int, limit: int): (r: seq<PlacedLine>)
    ensures |r| <= |lines|
    ensures forall k :: 0 <= k < |r| ==> r[k] == PlacedLine(y + k * (lineHeight + 2), lines[k])
    ensures forall k :: 0 <= k < |r| ==> r[k].y + lineHeight <= limit
    ensures |r| < |lines| ==> y + |r| * (lineHeight + 2) + lineHeight > limit
  {
    if |lines| == 0 || y + lineHeight > limit then []
    else
      var step := lineHeight + 2;
      var rest := Place(lines[1..], y + step, lineHeight, limit);
      forall k | 0 <= k < |rest| + 1
        ensures y + step + k * step == y + (k + 1) * step
      {
        NextRow(k, step);
      }
      [PlacedLine(y, lines[0])] + rest
  }

  lemma NextRow(k: int, step: int)
    ensures (k + 1) * step == k * step + step
  {
  }

  /** What `build_dialog_image` produces, apart from pixels. */
  datatype DialogImage = DialogImage(
    width: int,              // size of the returned image, shadow included
    height: int,
    textWidth: int,          // width the text is wrapped to
    lines: seq<string>,      // the wrapped lines
    drawn: seq<PlacedLine>)  // the lines actually drawn, at x = padding

  /** `build_dialog_image(text, width, height, padding, shadow, shadow_offset)`. */
  function Build(text: string, width: int, height: int, padding: int, shadow: bool, shadowOffset: int, font: Font): (d: DialogImage)
    ensures d.width == width + (if shadow then shadowOffset else 0)
    ensures d.height == height + (if shadow then shadowOffset else 0)
    ensures d.textWidth == width - 2 * padding
    ensures d.lines == WrapText(text, width - 2 * padding, MaxLines, font.measure)
    ensures |d.drawn| <= |d.lines| <= MaxLines
    ensures forall k :: 0 <= k < |d.drawn| ==>
      d.drawn[k] == PlacedLine(padding + k * (font.lineHeight + 2), d.lines[k])
    ensures forall k :: 0 <= k < |d.drawn| ==> d.drawn[k].y + font.lineHeight <= height - padding
    ensures |d.drawn| < |d.lines| ==>
      padding + |d.drawn| * (font.lineHeight + 2) + font.lineHeight > height - padding
  {
    var total := if shadow then shadowOffset else 0;
    var lines := WrapText(text, width - 2 * padding, MaxLines, font.measure);
    DialogImage(width + total, height + total, width - 2 * padding, lines,
      Place(lines, padding, font.lineHeight, height - padding))
  }
}
