/** The line breaking of `print_text` (printer.py:77-97, main.py:73-93). Widths are
    counted in half-units: a character with code point up to 256 weighs 0.5, any other
    1, so the weights are 1 and 2 here and the limit is doubled. */
module TextWrap {
  import opened HexText

  /** A character's width in half-units. */
  function Weight(c: char): nat { if c as int <= 256 then 1 else 2 }

  /** The width of a run of characters, in half-units. */
  function Weigh(s: string): nat
  {
    if s == [] then 0 else Weigh(s[..|s| - 1]) + Weight(s[|s| - 1])
  }

  /** `self.width // font_size - 2`, in half-units. */
  function Limit(width: nat, fontSize: nat): int
    requires fontSize > 0
  {
    2 * (width / fontSize - 2)
  }

  /** The lines of s, as `s.split("\n")` gives them. */
  function Lines(s: string): (ls: seq<string>)
    ensures |ls| == Count(s, '\n') + 1
    ensures forall k :: 0 <= k < |ls| ==> Count(ls[k], '\n') == 0
  {
    if s == [] then [""]
    else
      var front := Lines(s[..|s| - 1]);
      var c := s[|s| - 1];
      if c == '\n' then front + [""]
      else
        var last := front[|front| - 1] + [c];
        assert Count(last, '\n') == 0 by {
          assert last[..|last| - 1] == front[|front| - 1];
        }
        front[..|front| - 1] + [last]
  }

  /** The lines put back together with a newline between each two: `"\n".join`. */
  function Join(ls: seq<string>): string
    requires |ls| >= 1
  {
    if |ls| == 1 then ls[0] else Join(ls[..|ls| - 1]) + "\n" + ls[|ls| - 1]
  }

  /** Joining the lines of s gives s back: `Lines` is `split("\n")`. */
  lemma {:induction false} LinesJoin(s: string)
    ensures Join(Lines(s)) == s
    decreases |s|
  {
    if s != [] {
      var s', c := s[..|s| - 1], s[|s| - 1];
      var front := Lines(s');
      LinesJoin(s');
      if c == '\n' {
        assert Lines(s) == front + [""];
        assert (front + [""])[..|front|] == front;
        assert s == s' + "\n" + "";
      } else {
        JoinLastAppend(front, c);
        assert s == s' + [c];
      }
    }
  }

  /** Appending a character to the last line appends it to the joined string. */
  lemma JoinLastAppend(ls: seq<string>, c: char)
    requires |ls| >= 1
    ensures Join(ls[..|ls| - 1] + [ls[|ls| - 1] + [c]]) == Join(ls) + [c]
  {
    var n := |ls|;
    var ms := ls[..n - 1] + [ls[n - 1] + [c]];
    if n > 1 {
      assert ms[..n - 1] == ls[..n - 1];
    }
  }

  /** The line being written: what follows the last newline. */
  function LastLine(s: string): string
  {
    Lines(s)[|Lines(s)| - 1]
  }

  /** s without its newlines. */
  function Strip(s: string): (r: string)
    ensures Count(r, '\n') == 0
  {
    if s == [] then []
    else
      var r := Strip(s[..|s| - 1]);
      if s[|s| - 1] == '\n' then r
      else
        assert (r + [s[|s| - 1]])[..|r|] == r;
        r + [s[|s| - 1]]
  }

  /** `content` and `line_length` after some characters of the text. */
  datatype WrapState = WrapState(content: string, line: nat)

  /** One turn of the loop: a newline of the text resets the line; any other character
      goes on a fresh line when it would take the line past the limit. */
  function WrapStep(st: WrapState, c: char, limit: int): WrapState
  {
    if c == '\n' then WrapState(st.content + "\n", 0)
    else if st.line + Weight(c) > limit then WrapState(st.content + "\n" + [c], Weight(c))
    else WrapState(st.content + [c], st.line + Weight(c))
  }

  /** The loop over the whole text. */
  function Wrap(text: string, limit: int): WrapState
  {
    if text == [] then WrapState("", 0)
    else WrapStep(Wrap(text[..|text| - 1], limit), text[|text| - 1], limit)
  }

  /** The wrap loop as the source writes it. */
  method WrapText(text: string, width: nat, fontSize: nat) returns (content: string)
    requires fontSize > 0
    ensures content == Wrap(text, Limit(width, fontSize)).content
  {
    content := "";
    var lineLength := 0;
    for i := 0 to |text|
      invariant WrapState(content, lineLength) == Wrap(text[..i], Limit(width, fontSize))
    {
      assert text[..i + 1][..i] == text[..i];
      var c := text[i];
      if c == '\n' {
        lineLength := 0;
        content := content + "\n";
        continue;
      }
      var l := if c as int <= 256 then 1 else 2;
      if lineLength + l > 2 * (width / fontSize - 2) {
        content := content + "\n";
        lineLength := 0;
      }
      lineLength := lineLength + l;
      content := content + [c];
    }
    assert text[..|text|] == text;
  }

  // ---------------------------------------------------------------------------------
  // Properties

  lemma WeighAppend(s: string, c: char)
    ensures Weigh(s + [c]) == Weigh(s) + Weight(c)
  {
    assert (s + [c])[..|s|] == s;
  }

  lemma LinesAppend(s: string, c: char)
    ensures c == '\n' ==> Lines(s + [c]) == Lines(s) + [""]
    ensures c != '\n' ==> Lines(s + [c]) == Lines(s)[..|Lines(s)| - 1] + [LastLine(s) + [c]]
  {
    assert (s + [c])[..|s|] == s;
  }

  /** The running weight is the weight of the line being written: it restarts at every
      newline, inserted or not. */
  lemma {:induction false} WrapLineWeight(text: string, limit: int)
    ensures Wrap(text, limit).line == Weigh(LastLine(Wrap(text, limit).content))
    decreases |text|
  {
    if text != [] {
      var st := Wrap(text[..|text| - 1], limit);
      var c := text[|text| - 1];
      WrapLineWeight(text[..|text| - 1], limit);
      if c == '\n' {
        LinesAppend(st.content, c);
      } else if st.line + Weight(c) > limit {
        LinesAppend(st.content, '\n');
        LinesAppend(st.content + "\n", c);
        assert LastLine(st.content + "\n") == "";
        WeighAppend("", c);
      } else {
        LinesAppend(st.content, c);
        WeighAppend(LastLine(st.content), c);
      }
    }
  }

  /** A newline goes in before a character exactly when the line written so far plus
      that character would weigh more than the limit; otherwise the character is only
      appended. */
  lemma WrapBreak(text: string, c: char, limit: int)
    requires c != '\n'
    ensures var before := Wrap(text, limit).content;
      Wrap(text + [c], limit).content ==
        before + (if Weigh(LastLine(before)) + Weight(c) > limit then "\n" else "") + [c]
  {
    assert (text + [c])[..|text|] == text;
    WrapLineWeight(text, limit);
  }

  lemma StripAppend(s: string, t: string)
    ensures Strip(s + t) == Strip(s) + Strip(t)
    decreases |t|
  {
    if t != [] {
      assert (s + t)[..|s + t| - 1] == s + t[..|t| - 1];
      StripAppend(s, t[..|t| - 1]);
    } else {
      assert s + t == s;
    }
  }

  /** Deleting the newlines from the wrapped text gives the text without its newlines,
      and every newline of the text is kept: the loop only inserts newlines. */
  lemma {:induction false} WrapOnlyInsertsNewlines(text: string, limit: int)
    ensures Strip(Wrap(text, limit).content) == Strip(text)
    ensures Count(Wrap(text, limit).content, '\n') >= Count(text, '\n')
    decreases |text|
  {
    if text != [] {
      var front := text[..|text| - 1];
      var c := text[|text| - 1];
      WrapOnlyInsertsNewlines(front, limit);
      assert text == front + [c];
      StripAppend(front, [c]);
      CountAppend(front, [c], '\n');
      StepKeepsText(Wrap(front, limit), c, limit);
    }
  }

  /** One turn of the loop appends the character, and perhaps a newline before it. */
  lemma StepKeepsText(st: WrapState, c: char, limit: int)
    ensures Strip(WrapStep(st, c, limit).content) == Strip(st.content) + Strip([c])
    ensures Count(WrapStep(st, c, limit).content, '\n') >= Count(st.content, '\n') + Count([c], '\n')
  {
    var added := if c != '\n' && st.line + Weight(c) > limit then "\n" + [c] else [c];
    assert WrapStep(st, c, limit).content == st.content + added;
    StripAppend(st.content, added);
    CountAppend(st.content, added, '\n');
    if c != '\n' && st.line + Weight(c) > limit {
      StripAppend("\n", [c]);
      CountAppend("\n", [c], '\n');
      assert Strip("\n") == [] by {
        assert "\n"[..0] == [];
      }
    }
  }

  /** A line fits the limit, or is a lone character. */
  predicate Fits(line: string, limit: int) { Weigh(line) <= limit || |line| <= 1 }

  predicate AllFit(s: string, limit: int)
  {
    forall k :: 0 <= k < |Lines(s)| ==> Fits(Lines(s)[k], limit)
  }

  /** Every line of the wrapped text fits the limit, except a line holding a single
      character that is wider than the limit by itself. */
  lemma {:induction false} WrapLinesFit(text: string, limit: int)
    ensures AllFit(Wrap(text, limit).content, limit)
    decreases |text|
  {
    if text != [] {
      var front := text[..|text| - 1];
      WrapLinesFit(front, limit);
      WrapLineWeight(front, limit);
      StepFits(Wrap(front, limit), text[|text| - 1], limit);
    }
  }

  lemma StepFits(st: WrapState, c: char, limit: int)
    requires AllFit(st.content, limit) && st.line == Weigh(LastLine(st.content))
    ensures AllFit(WrapStep(st, c, limit).content, limit)
  {
    if c == '\n' {
      NewlineFits(st.content, limit);
    } else if st.line + Weight(c) > limit {
      NewlineFits(st.content, limit);
      BreakFits(st.content + "\n", c, limit);
      assert st.content + "\n" + [c] == (st.content + "\n") + [c];
    } else {
      AppendFits(st.content, c, limit);
    }
  }

  lemma NewlineFits(s: string, limit: int)
    requires AllFit(s, limit)
    ensures AllFit(s + "\n", limit) && LastLine(s + "\n") == ""
  {
    LinesAppend(s, '\n');
    KeepFitting(Lines(s), |Lines(s)|, "", limit);
  }

  lemma BreakFits(s: string, c: char, limit: int)
    requires AllFit(s, limit) && LastLine(s) == "" && c != '\n'
    ensures AllFit(s + [c], limit)
  {
    LinesAppend(s, c);
    assert LastLine(s) + [c] == [c];
    KeepFitting(Lines(s), |Lines(s)| - 1, [c], limit);
  }

  lemma AppendFits(s: string, c: char, limit: int)
    requires AllFit(s, limit) && c != '\n' && Weigh(LastLine(s)) + Weight(c) <= limit
    ensures AllFit(s + [c], limit)
  {
    LinesAppend(s, c);
    WeighAppend(LastLine(s), c);
    KeepFitting(Lines(s), |Lines(s)| - 1, LastLine(s) + [c], limit);
  }

  lemma KeepFitting(lines: seq<string>, keep: nat, line: string, limit: int)
    requires keep <= |lines| && Fits(line, limit)
    requires forall k :: 0 <= k < |lines| ==> Fits(lines[k], limit)
    ensures forall k :: 0 <= k < keep + 1 ==> Fits((lines[..keep] + [line])[k], limit)
  {
    forall k | 0 <= k < keep + 1 ensures Fits((lines[..keep] + [line])[k], limit) {
      if k < keep {
        assert (lines[..keep] + [line])[k] == lines[k];
      }
    }
  }
}
