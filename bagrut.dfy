/** `generate_bagrut_qa` of chatbot/chatbot.py: split the reply to the
    questions prompt on runs of newlines and ask one answer prompt per
    non-blank line. The reply is an input, and the answer to a question is
    `answerFor(question)`, standing for `execute_prompt` on the answer prompt
    built from that question. */
module BagrutQA {
  import opened Text
  import PromptExecutor

  /** Drop the run of newlines at the front of `s`. */
  function SkipNewlines(s: string): (r: string)
    ensures |r| <= |s| && r == s[|s| - |r|..]
    ensures forall k :: 0 <= k < |s| - |r| ==> s[k] == '\n'
    ensures r == [] || r[0] != '\n'
    ensures s != [] && s[0] == '\n' ==> |r| < |s|
  {
    if s != [] && s[0] == '\n' then SkipNewlines(s[1..]) else s
  }

  /** `re.split(r'\n+', s)`: the pieces between maximal runs of newlines. A
      run at the front or the back leaves an empty piece there, and the empty
      string splits into one empty piece. */
  function SplitRuns(s: string): (segs: seq<string>)
    ensures |segs| >= 1
    decreases |s|
  {
    if s == [] then [""]
    else if s[0] == '\n' then [""] + SplitRuns(SkipNewlines(s))
    else
      var rest := SplitRuns(s[1..]);
      [[s[0]] + rest[0]] + rest[1..]
  }

  /** `s` with every run of newlines shortened to one newline. */
  function Collapse(s: string): string
    decreases |s|
  {
    if s == [] then []
    else if s[0] == '\n' then "\n" + Collapse(SkipNewlines(s))
    else [s[0]] + Collapse(s[1..])
  }

  /** `'\n'.join(segs)`. */
  function JoinLines(segs: seq<string>): string
    requires |segs| >= 1
  {
    if |segs| == 1 then segs[0] else segs[0] + "\n" + JoinLines(segs[1..])
  }

  /** Splitting loses nothing but the length of each newline run: joining the
      pieces with single newlines gives back `s` with its runs collapsed. */
  lemma {:induction false} SplitRunsJoin(s: string)
    ensures JoinLines(SplitRuns(s)) == Collapse(s)
    decreases |s|
  {
    if s == [] {
    } else if s[0] == '\n' {
      SplitRunsJoin(SkipNewlines(s));
    } else {
      var rest := SplitRuns(s[1..]);
      SplitRunsJoin(s[1..]);
      if |rest| > 1 {
        var segs := SplitRuns(s);
        assert segs[1..] == rest[1..];
        assert JoinLines(segs) == [s[0]] + rest[0] + "\n" + JoinLines(rest[1..]);
      }
    }
  }

  /** No piece holds a newline. */
  lemma {:induction false} SplitRunsNoNewline(s: string)
    ensures forall i :: 0 <= i < |SplitRuns(s)| ==> '\n' !in SplitRuns(s)[i]
    decreases |s|
  {
    if s == [] {
    } else if s[0] == '\n' {
      SplitRunsNoNewline(SkipNewlines(s));
    } else {
      var rest := SplitRuns(s[1..]);
      SplitRunsNoNewline(s[1..]);
      var segs := SplitRuns(s);
      assert segs[0] == [s[0]] + rest[0];
      forall i | 1 <= i < |segs| ensures segs[i] == rest[i] {
      }
    }
  }

  /** Every character of a piece comes from `s`. */
  lemma {:induction false} SplitRunsChars(s: string)
    ensures forall i, c :: 0 <= i < |SplitRuns(s)| && c in SplitRuns(s)[i] ==> c in s
    decreases |s|
  {
    if s == [] {
    } else if s[0] == '\n' {
      var r := SkipNewlines(s);
      SplitRunsChars(r);
      forall c | c in r ensures c in s {
        var k :| 0 <= k < |r| && r[k] == c;
        assert s[|s| - |r| + k] == c;
      }
    } else {
      var rest := SplitRuns(s[1..]);
      SplitRunsChars(s[1..]);
      var segs := SplitRuns(s);
      assert segs[0] == [s[0]] + rest[0];
      forall i | 1 <= i < |segs| ensures segs[i] == rest[i] {
      }
      forall c | c in s[1..] ensures c in s {
        var k :| 0 <= k < |s[1..]| && s[1..][k] == c;
        assert s[k + 1] == c;
      }
    }
  }

  /** A reply without a newline is one piece. */
  lemma {:induction false} SplitRunsSingleLine(s: string)
    requires '\n' !in s
    ensures SplitRuns(s) == [s]
    decreases |s|
  {
    if s != [] {
      assert '\n' !in s[1..];
      SplitRunsSingleLine(s[1..]);
      assert s[0] != '\n';
      assert SplitRuns(s) == [[s[0]] + s[1..]];
      assert [s[0]] + s[1..] == s;
    }
  }

  /** One question and the answer the model gave to it. */
  datatype QA = QA(question: string, answer: string)

  /** `question.strip()` is falsy. */
  predicate Blank(q: string)
  {
    Strip(q) == ""
  }

  /** The list the loop builds from `segs`: one pair per non-blank piece, in
      order, each with the unstripped piece as its question. */
  function QAPairs(segs: seq<string>, answerFor: string -> string): seq<QA>
    decreases |segs|
  {
    if segs == [] then []
    else
      var last := segs[|segs| - 1];
      QAPairs(segs[..|segs| - 1], answerFor) + (if Blank(last) then [] else [QA(last, answerFor(last))])
  }

  /** `idx` picks, in increasing order, pieces of `segs` that are not blank,
      and pair `j` of `qa` asks piece `idx[j]` and carries its answer. */
  ghost predicate Picks(segs: seq<string>, answerFor: string -> string, qa: seq<QA>, idx: seq<nat>)
  {
    && |idx| == |qa|
    && (forall j :: 0 <= j < |idx| ==> idx[j] < |segs| && !Blank(segs[idx[j]]))
    && (forall j :: 0 <= j < |idx| ==> qa[j] == QA(segs[idx[j]], answerFor(segs[idx[j]])))
    && (forall j, k :: 0 <= j < k < |idx| ==> idx[j] < idx[k])
  }

  /** Every non-blank piece of `segs` is chosen by `idx`. */
  ghost predicate CoversNonBlank(segs: seq<string>, idx: seq<nat>)
  {
    forall i :: 0 <= i < |segs| && !Blank(segs[i]) ==> i in idx
  }

  /** The pairs are exactly the non-blank pieces in order: there is a strictly
      increasing choice `idx` of pieces such that pair `j` asks piece `idx[j]`
      and carries its answer, and every non-blank piece is chosen. */
  lemma {:induction false} QAPairsExact(segs: seq<string>, answerFor: string -> string) returns (idx: seq<nat>)
    ensures Picks(segs, answerFor, QAPairs(segs, answerFor), idx)
    ensures CoversNonBlank(segs, idx)
    decreases |segs|
  {
    if segs == [] {
      idx := [];
    } else {
      var n := |segs| - 1;
      var front := segs[..n];
      var before := QAPairsExact(front, answerFor);
      var pairs := QAPairs(front, answerFor);
      PicksExtend(segs, answerFor, pairs, before);
      if Blank(segs[n]) {
        idx := before;
        assert QAPairs(segs, answerFor) == pairs;
      } else {
        idx := before + [n];
        PicksAppend(segs, answerFor, pairs, before);
        assert QAPairs(segs, answerFor) == pairs + [QA(segs[n], answerFor(segs[n]))];
      }
      CoversStep(segs, before, idx);
    }
  }

  /** Covering the front and choosing the last piece when it is not blank
      covers all of `segs`. */
  lemma CoversStep(segs: seq<string>, before: seq<nat>, idx: seq<nat>)
    requires |segs| > 0 && CoversNonBlank(segs[..|segs| - 1], before)
    requires idx == if Blank(segs[|segs| - 1]) then before else before + [|segs| - 1]
    ensures CoversNonBlank(segs, idx)
  {
    var n := |segs| - 1;
    forall i | 0 <= i < |segs| && !Blank(segs[i]) ensures i in idx {
      if i < n {
        assert segs[..n][i] == segs[i];
        assert i in before;
      }
    }
  }

  /** A choice of pieces of the front of `segs` is a choice of pieces of `segs`. */
  lemma PicksExtend(segs: seq<string>, answerFor: string -> string, qa: seq<QA>, idx: seq<nat>)
    requires |segs| > 0 && Picks(segs[..|segs| - 1], answerFor, qa, idx)
    ensures Picks(segs, answerFor, qa, idx)
    ensures forall j :: 0 <= j < |idx| ==> idx[j] < |segs| - 1
  {
    var front := segs[..|segs| - 1];
    forall j | 0 <= j < |idx| ensures segs[idx[j]] == front[idx[j]] {
    }
  }

  /** Choosing the last piece as well, when it is not blank. */
  lemma PicksAppend(segs: seq<string>, answerFor: string -> string, qa: seq<QA>, idx: seq<nat>)
    requires |segs| > 0 && Picks(segs, answerFor, qa, idx)
    requires forall j :: 0 <= j < |idx| ==> idx[j] < |segs| - 1
    requires !Blank(segs[|segs| - 1])
    ensures var n := |segs| - 1;
      Picks(segs, answerFor, qa + [QA(segs[n], answerFor(segs[n]))], idx + [n])
  {
  }

  /** Only blank pieces: no pairs. */
  lemma {:induction false} AllBlankNoPairs(segs: seq<string>, answerFor: string -> string)
    requires forall i :: 0 <= i < |segs| ==> Blank(segs[i])
    ensures QAPairs(segs, answerFor) == []
    decreases |segs|
  {
    if segs != [] {
      var front := segs[..|segs| - 1];
      assert forall i :: 0 <= i < |front| ==> front[i] == segs[i];
      AllBlankNoPairs(front, answerFor);
    }
  }

  /** A piece of whitespace only is blank. */
  lemma {:induction false} AllSpaceIsBlank(q: string)
    requires forall k :: 0 <= k < |q| ==> IsSpace(q[k])
    ensures Blank(q)
    decreases |q|
  {
    if q != [] {
      AllSpaceIsBlank(q[1..]);
    }
  }

  /** A reply of whitespace only gives no questions. */
  lemma BlankReplyGivesNothing(response: string, answerFor: string -> string)
    requires forall c :: c in response ==> IsSpace(c)
    ensures QAPairs(SplitRuns(response), answerFor) == []
  {
    var segs := SplitRuns(response);
    SplitRunsChars(response);
    forall i | 0 <= i < |segs| ensures Blank(segs[i]) {
      var q := segs[i];
      forall k | 0 <= k < |q| ensures IsSpace(q[k]) {
        assert q[k] in q;
      }
      AllSpaceIsBlank(q);
    }
    AllBlankNoPairs(segs, answerFor);
  }

  /** When the questions prompt failed, the sentinel is one line that is not
      blank, so it is itself posed as the only question. */
  lemma SentinelIsAsked(answerFor: string -> string)
    ensures QAPairs(SplitRuns(PromptExecutor.Sentinel), answerFor)
         == [QA(PromptExecutor.Sentinel, answerFor(PromptExecutor.Sentinel))]
  {
    var s := PromptExecutor.Sentinel;
    SentinelHasOneLine();
    SplitRunsSingleLine(s);
    assert [s][..0] == [];
  }

  /** The sentinel has no newline and does not strip to "". */
  lemma SentinelHasOneLine()
    ensures '\n' !in PromptExecutor.Sentinel && !Blank(PromptExecutor.Sentinel)
  {
    var s := PromptExecutor.Sentinel;
    assert s[0] == 'C' && s[|s| - 1] == 'r';
    StripOfClean(s);
  }

  /** `generate_bagrut_qa(book_name, chapter_name, plot_points_data)` after the
      questions reply has arrived (chatbot/chatbot.py:148-168). */
  method GenerateBagrutQA(response: string, answerFor: string -> string) returns (qa: seq<QA>)
    ensures qa == QAPairs(SplitRuns(response), answerFor)
  {
    var questions := SplitRuns(response);
    qa := [];
    var i := 0;
    while i < |questions|
      invariant 0 <= i <= |questions|
      invariant qa == QAPairs(questions[..i], answerFor)
    {
      var question := questions[i];
      assert questions[..i + 1][..i] == questions[..i];
      if Strip(question) != "" {
        var answer := answerFor(question);
        qa := qa + [QA(question, answer)];
      }
      i := i + 1;
    }
    assert questions[..i] == questions;
  }
}
