/** `parse_plot_points_response` of chatbot/chatbot.py: scan the reply for bold
    headers `**Label:**`, slice the text between successive header offsets, and
    file each slice under the normalised label when it is one of eight keys. */
module PlotPointsParser {
  import opened Text

  /** The keys of `plot_points_data`, in the dict's order. */
  const FieldNames: seq<string> := [
    "death_and_tragic_events", "decisions", "conflicts", "character_development",
    "symbolism_and_imagery", "foreshadowing", "setting_description", "chapter_summary"
  ]

  // ---------------------------------------------------------------------------
  // The header pattern  \*\*([A-Za-z\s]+):\*\*

  /** The character class `[A-Za-z\s]`. */
  predicate IsLabelChar(c: char)
  {
    ('A' <= c <= 'Z') || ('a' <= c <= 'z') || IsSpace(c)
  }

  /** What it means for the pattern to match at offset `p` with group 1 `label`. */
  ghost predicate IsHeaderAt(s: string, p: nat, group: string)
  {
    && |group| >= 1
    && (forall k :: 0 <= k < |group| ==> IsLabelChar(group[k]))
    && p + |group| + 5 <= |s|
    && s[p..p + |group| + 5] == "**" + group + ":**"
  }

  /** Length of the longest run of label characters starting at `p`. */
  function RunLength(s: string, p: nat): (n: nat)
    requires p <= |s|
    ensures p + n <= |s|
    ensures forall k :: p <= k < p + n ==> IsLabelChar(s[k])
    ensures p + n < |s| ==> !IsLabelChar(s[p + n])
    decreases |s| - p
  {
    if p < |s| && IsLabelChar(s[p]) then 1 + RunLength(s, p + 1) else 0
  }

  /** The matcher at one offset. `+` is greedy and neither `:` nor `*` is a label
      character, so the run must be the longest one: there is no other way to match. */
  function MatchAt(s: string, p: nat): (r: Option<string>)
    requires p <= |s|
    ensures r.Some? ==> p + |r.value| + 5 <= |s|
  {
    if p + 2 <= |s| && s[p] == '*' && s[p + 1] == '*' then
      var n := RunLength(s, p + 2);
      if n >= 1 && p + n + 5 <= |s| && s[p + n + 2] == ':' && s[p + n + 3] == '*' && s[p + n + 4] == '*'
      then Some(s[p + 2..p + 2 + n])
      else None
    else None
  }

  /** Whatever MatchAt reports is a match of the pattern. */
  lemma MatchAtSound(s: string, p: nat)
    requires p <= |s| && MatchAt(s, p).Some?
    ensures IsHeaderAt(s, p, MatchAt(s, p).value)
  {
    var group := MatchAt(s, p).value;
    var n := |group|;
    var w := "**" + group + ":**";
    assert |w| == n + 5;
    forall k | 0 <= k < n + 5
      ensures s[p..p + n + 5][k] == w[k]
    {
      if 2 <= k < n + 2 {
        assert w[k] == group[k - 2];
      }
    }
  }

  /** Every match of the pattern is the one MatchAt reports: at each offset
      there is at most one. */
  lemma MatchAtComplete(s: string, p: nat, group: string)
    requires p <= |s| && IsHeaderAt(s, p, group)
    ensures MatchAt(s, p) == Some(group)
  {
    var n := |group|;
    var w := "**" + group + ":**";
    assert s[p..p + n + 5] == w;
    assert s[p] == w[0] && s[p + 1] == w[1];
    assert s[p + n + 2] == w[n + 2] == ':';
    assert s[p + n + 3] == w[n + 3] && s[p + n + 4] == w[n + 4];
    forall k | 0 <= k < n
      ensures s[p + 2 + k] == group[k]
    {
      assert s[p + 2 + k] == w[k + 2];
    }
    assert RunLength(s, p + 2) == n;
    assert s[p + 2..p + 2 + n] == group;
  }

  /** One match found by `finditer`: group 1 and `match.start()`. */
  datatype Header = Header(group: string, start: nat)

  /** Offset just past a header. */
  function HeaderEnd(h: Header): nat
  {
    h.start + |h.group| + 5
  }

  /** `pattern.finditer(response)` from offset `p`: left to right, each search
      resuming where the previous match ended. */
  function FindHeadersFrom(s: string, p: nat): (hs: seq<Header>)
    requires p <= |s|
    ensures forall i :: 0 <= i < |hs| ==>
              p <= hs[i].start && HeaderEnd(hs[i]) <= |s| && MatchAt(s, hs[i].start) == Some(hs[i].group)
    ensures forall i :: 0 <= i < |hs| - 1 ==> HeaderEnd(hs[i]) <= hs[i + 1].start
    decreases |s| - p
  {
    if p == |s| then []
    else match MatchAt(s, p)
      case Some(group) => [Header(group, p)] + FindHeadersFrom(s, p + |group| + 5)
      case None => FindHeadersFrom(s, p + 1)
  }

  /** `list(pattern.finditer(response))`. */
  function FindHeaders(s: string): seq<Header>
  {
    FindHeadersFrom(s, 0)
  }

  /** No match is skipped: every offset at which the pattern matches starts a
      found header or lies inside one (matches do not overlap). */
  lemma {:induction false} FindHeadersComplete(s: string, p: nat, q: nat) returns (h: Header)
    requires p <= q < |s| && MatchAt(s, q).Some?
    ensures h in FindHeadersFrom(s, p) && h.start <= q < HeaderEnd(h)
    decreases |s| - p
  {
    var m := MatchAt(s, p);
    if m.Some? {
      var next := p + |m.value| + 5;
      HeadersAtMatch(s, p);
      if q >= next {
        h := FindHeadersComplete(s, next, q);
      } else {
        h := Header(m.value, p);
      }
    } else {
      assert q != p;
      HeadersAtMiss(s, p);
      h := FindHeadersComplete(s, p + 1, q);
    }
  }

  /** Where the pattern matches, the search reports the match and resumes after it. */
  lemma HeadersAtMatch(s: string, p: nat)
    requires p < |s| && MatchAt(s, p).Some?
    ensures var g := MatchAt(s, p).value;
      FindHeadersFrom(s, p) == [Header(g, p)] + FindHeadersFrom(s, p + |g| + 5)
  {
  }

  /** Where the pattern does not match, the search moves on by one. */
  lemma HeadersAtMiss(s: string, p: nat)
    requires p < |s| && MatchAt(s, p).None?
    ensures FindHeadersFrom(s, p) == FindHeadersFrom(s, p + 1)
  {
  }

  // ---------------------------------------------------------------------------
  // `sections = {match.group(1): match.start() for match in matches}`

  /** The `sections` dict: its keys in insertion order, and the values. */
  datatype Sections = Sections(labels: seq<string>, offsets: map<string, nat>)

  /** One step of the dict comprehension: a new label is appended to the key
      order, a repeated one keeps its place and takes the new offset. */
  function AddHeader(t: Sections, h: Header): Sections
  {
    Sections(if h.group in t.offsets then t.labels else t.labels + [h.group],
             t.offsets[h.group := h.start])
  }

  function SectionsOf(hs: seq<Header>): (t: Sections)
    ensures t.offsets.Keys == set l | l in t.labels
    decreases |hs|
  {
    if hs == [] then Sections([], map[])
    else AddHeader(SectionsOf(hs[..|hs| - 1]), hs[|hs| - 1])
  }

  /** Every matched label is a key of `sections`. */
  lemma {:induction false} SectionsHaveGroups(hs: seq<Header>, i: nat)
    requires i < |hs|
    ensures hs[i].group in SectionsOf(hs).offsets
    decreases |hs|
  {
    if i < |hs| - 1 {
      var front := hs[..|hs| - 1];
      assert front[i] == hs[i];
      SectionsHaveGroups(front, i);
    }
  }

  /** The keys of `sections` are distinct. */
  lemma {:induction false} SectionsDistinct(hs: seq<Header>)
    ensures forall i, j :: 0 <= i < j < |SectionsOf(hs).labels| ==>
              SectionsOf(hs).labels[i] != SectionsOf(hs).labels[j]
    decreases |hs|
  {
    if hs != [] {
      var t := SectionsOf(hs[..|hs| - 1]);
      var h := hs[|hs| - 1];
      SectionsDistinct(hs[..|hs| - 1]);
      if h.group !in t.offsets {
        var ls := t.labels + [h.group];
        forall i, j | 0 <= i < j < |ls| ensures ls[i] != ls[j] {
          assert ls[i] == t.labels[i] && t.labels[i] in t.offsets;
          if j < |t.labels| {
            assert ls[j] == t.labels[j];
          }
        }
      }
    }
  }

  /** Every value of `sections` is the start of a header with that label. */
  lemma {:induction false} SectionOffsetFrom(hs: seq<Header>, l: string) returns (i: nat)
    requires l in SectionsOf(hs).offsets
    ensures i < |hs| && hs[i] == Header(l, SectionsOf(hs).offsets[l])
    decreases |hs|
  {
    var front := hs[..|hs| - 1];
    var h := hs[|hs| - 1];
    if h.group == l {
      i := |hs| - 1;
    } else {
      i := SectionOffsetFrom(front, l);
      assert front[i] == hs[i];
    }
  }

  /** A label's value is the offset of its LAST header. */
  lemma {:induction false} SectionOffsetIsLast(hs: seq<Header>, i: nat)
    requires i < |hs|
    requires forall j :: i < j < |hs| ==> hs[j].group != hs[i].group
    ensures hs[i].group in SectionsOf(hs).offsets
    ensures SectionsOf(hs).offsets[hs[i].group] == hs[i].start
    decreases |hs|
  {
    if i < |hs| - 1 {
      var front := hs[..|hs| - 1];
      assert front[i] == hs[i];
      forall j | i < j < |front| ensures front[j].group != front[i].group {
        assert front[j] == hs[j];
      }
      SectionOffsetIsLast(front, i);
    }
  }

  /** `match.group(1)` of every match, in order. */
  function Groups(hs: seq<Header>): seq<string>
  {
    seq(|hs|, i requires 0 <= i < |hs| => hs[i].group)
  }

  /** The keys of `sections` are exactly the matched labels. */
  lemma SectionKeysAreGroups(hs: seq<Header>)
    ensures forall l :: l in SectionsOf(hs).offsets <==> l in Groups(hs)
  {
    forall l | l in SectionsOf(hs).offsets ensures l in Groups(hs) {
      var i := SectionOffsetFrom(hs, l);
      assert Groups(hs)[i] == l;
    }
    forall l | l in Groups(hs) ensures l in SectionsOf(hs).offsets {
      var i :| 0 <= i < |hs| && Groups(hs)[i] == l;
      SectionsHaveGroups(hs, i);
    }
  }

  /** `sections` is ordered by first appearance: every key is a matched label,
      and of two keys the earlier one was matched first. */
  lemma {:induction false} SectionOrderIsFirstSeen(hs: seq<Header>)
    ensures forall i :: 0 <= i < |SectionsOf(hs).labels| ==> SectionsOf(hs).labels[i] in Groups(hs)
    ensures forall i, j :: 0 <= i < j < |SectionsOf(hs).labels| ==>
              IndexOf(Groups(hs), SectionsOf(hs).labels[i]) < IndexOf(Groups(hs), SectionsOf(hs).labels[j])
    decreases |hs|
  {
    if hs != [] {
      var n := |hs| - 1;
      var front := hs[..n];
      SectionOrderIsFirstSeen(front);
      SectionKeysAreGroups(front);
      assert Groups(hs) == Groups(front) + [hs[n].group];
      OrderStep(Groups(front), SectionsOf(front), hs[n]);
    }
  }

  /** One more header keeps the first-seen order of the keys, when the keys
      so far are in first-seen order over the labels `gs` matched so far. */
  lemma OrderStep(gs: seq<string>, t: Sections, h: Header)
    requires forall l :: l in t.offsets <==> l in gs
    requires forall i :: 0 <= i < |t.labels| ==> t.labels[i] in gs
    requires forall i, j :: 0 <= i < j < |t.labels| ==> IndexOf(gs, t.labels[i]) < IndexOf(gs, t.labels[j])
    ensures forall i :: 0 <= i < |AddHeader(t, h).labels| ==> AddHeader(t, h).labels[i] in gs + [h.group]
    ensures forall i, j :: 0 <= i < j < |AddHeader(t, h).labels| ==>
              IndexOf(gs + [h.group], AddHeader(t, h).labels[i]) < IndexOf(gs + [h.group], AddHeader(t, h).labels[j])
  {
    var g := h.group;
    var ls := AddHeader(t, h).labels;
    IndexOfAppendAll(gs, t.labels, g);
    if g !in t.offsets {
      IndexOfLast(gs, g);
      forall i, j | 0 <= i < j < |ls|
        ensures IndexOf(gs + [g], ls[i]) < IndexOf(gs + [g], ls[j])
      {
        assert ls[i] == t.labels[i];
        if j < |t.labels| {
          assert ls[j] == t.labels[j];
        }
      }
    }
  }

  // ---------------------------------------------------------------------------
  // `content.split('**')[-1]`

  /** `**` starts at offset `j` of `s`. */
  predicate SepAt(s: string, j: int)
  {
    0 <= j && j + 2 <= |s| && s[j] == '*' && s[j + 1] == '*'
  }

  /** Offset of the first `**` (the one `str.split` cuts at first). */
  function FindSep(s: string): (r: Option<nat>)
    ensures r.Some? ==> SepAt(s, r.value)
    ensures r.Some? ==> forall j :: 0 <= j < r.value ==> !SepAt(s, j)
    ensures r.None? ==> forall j :: 0 <= j < |s| ==> !SepAt(s, j)
  {
    if |s| < 2 then None
    else if s[0] == '*' && s[1] == '*' then Some(0)
    else
      assert forall k :: 1 <= k < |s| ==> (SepAt(s, k) <==> SepAt(s[1..], k - 1));
      match FindSep(s[1..])
      case None => None
      case Some(j) => Some(j + 1)
  }

  /** No `**` at any offset means `'**' in s` is false. */
  lemma {:induction false} NoSepNotContains(s: string)
    requires forall j :: 0 <= j < |s| ==> !SepAt(s, j)
    ensures !Contains(s, "**")
    decreases |s|
  {
    if |s| > 0 {
      assert !SepAt(s, 0);
      forall j | 0 <= j < |s[1..]| ensures !SepAt(s[1..], j) {
        assert !SepAt(s, j + 1);
      }
      NoSepNotContains(s[1..]);
    }
  }

  /** The last piece of `s.split('**')`: the pieces are cut left to right
      without overlap, so in "a***" the last piece is "*", not "". */
  function LastPiece(s: string): (r: string)
    ensures forall j :: 0 <= j < |r| ==> !SepAt(r, j)
    decreases |s|
  {
    match FindSep(s)
    case None => s
    case Some(i) => LastPiece(s[i + 2..])
  }

  /** Offset at which the last piece begins. */
  function PieceStart(s: string): (k: nat)
    ensures k <= |s|
    decreases |s|
  {
    match FindSep(s)
    case None => 0
    case Some(i) => i + 2 + PieceStart(s[i + 2..])
  }

  /** The last piece is a tail of `s`: all of it, or what follows a `**`. */
  lemma {:induction false} LastPieceIsTail(s: string)
    ensures LastPiece(s) == s[PieceStart(s)..]
    ensures PieceStart(s) > 0 ==> SepAt(s, PieceStart(s) - 2)
    decreases |s|
  {
    var f := FindSep(s);
    if f.Some? {
      var i := f.value;
      var rest := s[i + 2..];
      LastPieceIsTail(rest);
      var k := PieceStart(rest);
      assert rest[k..] == s[i + 2 + k..];
      if k > 0 {
        assert rest[k - 2] == s[i + k] && rest[k - 1] == s[i + k + 1];
      }
    }
  }

  /** What is found after the last cut holds no `**`. */
  lemma LastPieceHasNoSep(s: string)
    ensures !Contains(LastPiece(s), "**")
  {
    NoSepNotContains(LastPiece(s));
  }

  /** The left-to-right cut in action. */
  lemma LastPieceOfTripleStar()
    ensures LastPiece("a***") == "*"
  {
    assert FindSep("a***") == Some(1);
    assert "a***"[3..] == "*";
    assert FindSep("*") == None;
  }

  /** The offset of the first `**`, told by where `**` occurs and where it does not. */
  lemma FindSepAt(s: string, i: nat)
    requires SepAt(s, i) && forall j :: 0 <= j < i ==> !SepAt(s, j)
    ensures FindSep(s) == Some(i)
  {
  }

  /** The slice of one section, `**group:**body`, with no `*` in the group or
      the body: the last piece is the body. */
  lemma LastPieceOfSection(group: string, body: string)
    requires '*' !in group && '*' !in body
    ensures LastPiece("**" + group + ":**" + body) == body
  {
    var x := "**" + group + ":**" + body;
    assert FindSep(x) == Some(0);
    var y := x[2..];
    assert y == group + ":**" + body;
    var n := |group|;
    forall j | 0 <= j < n + 1 ensures !SepAt(y, j) {
      if j < n {
        assert y[j] == group[j];
      } else {
        assert y[j] == ':';
      }
    }
    assert y[n + 1] == '*' && y[n + 2] == '*';
    FindSepAt(y, n + 1);
    assert y[n + 3..] == body;
    forall j | 0 <= j < |body| ensures !SepAt(body, j) {
      assert body[j] in body;
    }
    assert FindSep(body) == None;
    assert LastPiece(x) == LastPiece(y);
    assert LastPiece(y) == LastPiece(body);
  }

  // ---------------------------------------------------------------------------
  // Filling `plot_points_data`

  /** `section.strip().lower().replace(' ', '_')`. */
  function Normalize(group: string): string
  {
    SpacesToUnderscores(Lower(Strip(group)))
  }

  /** A normalised label holds neither a space nor an upper-case letter. */
  lemma NormalizeShape(group: string)
    ensures forall k :: 0 <= k < |Normalize(group)| ==>
              Normalize(group)[k] != ' ' && !('A' <= Normalize(group)[k] <= 'Z')
  {
  }

  /** Normalising a normalised label changes nothing. */
  lemma NormalizeIdempotent(group: string)
    ensures Normalize(Normalize(group)) == Normalize(group)
  {
    var s := Strip(group);
    var n := Normalize(group);
    StripClean(group);
    if n != [] {
      assert !IsSpace(n[0]) && !IsSpace(n[|n| - 1]);
    }
    StripOfClean(n);
    NormalizeShape(group);
    assert Lower(n) == n;
    assert SpacesToUnderscores(n) == n;
  }

  /** A heading as a reply writes it normalises to its key: the case of the
      label does not matter and its inner spaces become underscores. */
  lemma DeathHeadingNormalizes()
    ensures Normalize("Death and Tragic Events") == "death_and_tragic_events"
  {
    StripOfClean("Death and Tragic Events");
    assert Lower("Death and Tragic Events") == "death and tragic events";
  }

  /** Spaces around the label do not matter either. */
  lemma SummaryHeadingNormalizes()
    ensures Normalize(" Chapter Summary ") == "chapter_summary"
  {
    var c := " Chapter Summary ";
    assert StripLeading(c) == c[1..];
    assert StripTrailing(c[1..]) == "Chapter Summary";
    StripOfClean("Chapter Summary");
    assert Lower("Chapter Summary") == "chapter summary";
  }

  /** The dict as first built: all eight keys, each "". */
  function EmptyFields(): (d: map<string, string>)
    ensures d.Keys == set k | k in FieldNames
    ensures forall k :: k in d ==> d[k] == ""
  {
    map k | k in FieldNames :: ""
  }

  /** The offsets of a `Sections` lie inside a text of length `len`. */
  ghost predicate Fits(t: Sections, len: nat)
  {
    && (forall i :: 0 <= i < |t.labels| ==> t.labels[i] in t.offsets)
    && (forall l :: l in t.offsets ==> t.offsets[l] <= len)
  }

  /** `end_pos` for the `i`-th key. */
  function SectionEnd(s: string, t: Sections, i: nat): (e: nat)
    requires Fits(t, |s|) && i < |t.labels|
    ensures e <= |s|
  {
    if i + 1 < |t.labels| then t.offsets[t.labels[i + 1]] else |s|
  }

  /** `content.split('**')[-1].strip()` for the `i`-th key. */
  function SectionValue(s: string, t: Sections, i: nat): string
    requires Fits(t, |s|) && i < |t.labels|
  {
    Strip(LastPiece(Slice(s, t.offsets[t.labels[i]], SectionEnd(s, t, i))))
  }

  /** The `section_key` of every key of `sections`, in dict order. */
  function SectionKeys(t: Sections): (keys: seq<string>)
    ensures |keys| == |t.labels|
  {
    seq(|t.labels|, i requires 0 <= i < |t.labels| => Normalize(t.labels[i]))
  }

  /** The value computed for every key of `sections`, in dict order. */
  function SectionValues(s: string, t: Sections): (values: seq<string>)
    requires Fits(t, |s|)
    ensures |values| == |t.labels|
  {
    seq(|t.labels|, i requires 0 <= i < |t.labels| => SectionValue(s, t, i))
  }

  /** The `i`-th key and value, as the loop over `sections` computes them. */
  lemma SectionAt(s: string, t: Sections, i: nat, start: nat, end: nat)
    requires Fits(t, |s|) && i < |t.labels|
    requires start == t.offsets[t.labels[i]] && end == SectionEnd(s, t, i)
    ensures SectionKeys(t)[i] == Normalize(t.labels[i])
    ensures SectionValues(s, t)[i] == Strip(LastPiece(Slice(s, start, end)))
  {
  }

  /** The dict after the first `k` assignments `keys[i] := values[i]`; an
      assignment to a key that is not one of the eight is skipped. */
  function FillUpTo(keys: seq<string>, values: seq<string>, k: nat): (d: map<string, string>)
    requires |keys| == |values| && k <= |keys|
    ensures d.Keys == EmptyFields().Keys
  {
    if k == 0 then EmptyFields()
    else
      var d := FillUpTo(keys, values, k - 1);
      if keys[k - 1] in d then d[keys[k - 1] := values[k - 1]] else d
  }

  /** One more assignment. */
  lemma FillStep(keys: seq<string>, values: seq<string>, k: nat, d: map<string, string>)
    requires |keys| == |values| && k < |keys| && d == FillUpTo(keys, values, k)
    ensures keys[k] in d ==> FillUpTo(keys, values, k + 1) == d[keys[k] := values[k]]
    ensures keys[k] !in d ==> FillUpTo(keys, values, k + 1) == d
  {
  }

  /** The final `for key in plot_points_data` loop. */
  function StripValues(d: map<string, string>): map<string, string>
  {
    map k | k in d :: Strip(d[k])
  }

  /** The headers of `s` fit inside `s`. */
  lemma SectionsFit(s: string)
    ensures Fits(SectionsOf(FindHeaders(s)), |s|)
  {
    var hs := FindHeaders(s);
    var t := SectionsOf(hs);
    forall l | l in t.offsets ensures t.offsets[l] <= |s| {
      var i := SectionOffsetFrom(hs, l);
    }
    forall i | 0 <= i < |t.labels| ensures t.labels[i] in t.offsets {
    }
  }

  /** `parse_plot_points_response(response)` (chatbot/chatbot.py:99-139). */
  function Parse(s: string): map<string, string>
  {
    var t := SectionsOf(FindHeaders(s));
    SectionsFit(s);
    StripValues(FillUpTo(SectionKeys(t), SectionValues(s, t), |t.labels|))
  }

  // ---------------------------------------------------------------------------
  // Properties of the result

  /** A value as the parser leaves it: no `**` inside and no whitespace at
      either end. */
  predicate Clean(v: string)
  {
    && !Contains(v, "**")
    && (v == [] || (!IsSpace(v[0]) && !IsSpace(v[|v| - 1])))
  }

  /** Every section value is clean. */
  lemma SectionValueClean(s: string, t: Sections, i: nat)
    requires Fits(t, |s|) && i < |t.labels|
    ensures Clean(SectionValue(s, t, i))
  {
    var piece := LastPiece(Slice(s, t.offsets[t.labels[i]], SectionEnd(s, t, i)));
    LastPieceHasNoSep(Slice(s, t.offsets[t.labels[i]], SectionEnd(s, t, i)));
    StripClean(piece);
    if Contains(Strip(piece), "**") {
      StripContains(piece, "**");
    }
  }

  /** Every value FillUpTo stores is "" or one of `values`, stored under a key
      that one of the first `k` assignments names. */
  lemma {:induction false} FillValues(keys: seq<string>, values: seq<string>, k: nat, key: string)
    returns (i: int)
    requires |keys| == |values| && k <= |keys|
    requires key in FillUpTo(keys, values, k)
    ensures FillUpTo(keys, values, k)[key] == "" || (0 <= i < k && keys[i] == key &&
                                                     FillUpTo(keys, values, k)[key] == values[i])
  {
    if k == 0 {
      i := -1;
    } else if keys[k - 1] == key {
      i := k - 1;
    } else {
      i := FillValues(keys, values, k - 1, key);
    }
  }

  /** The value of a key comes from the last assignment that names it. */
  lemma {:induction false} FillLastWins(keys: seq<string>, values: seq<string>, k: nat, i: nat)
    requires |keys| == |values| && i < k <= |keys|
    requires keys[i] in EmptyFields()
    requires forall j :: i < j < k ==> keys[j] != keys[i]
    ensures keys[i] in FillUpTo(keys, values, k)
    ensures FillUpTo(keys, values, k)[keys[i]] == values[i]
  {
    if k - 1 > i {
      FillLastWins(keys, values, k - 1, i);
    }
  }

  /** Stripping values that are already stripped changes nothing. */
  lemma StripValuesOfClean(d: map<string, string>)
    requires forall k :: k in d ==> Strip(d[k]) == d[k]
    ensures StripValues(d) == d
  {
  }

  /** The final strip loop changes nothing: the values are already stripped. */
  lemma FinalStripChangesNothing(s: string)
    ensures var t := SectionsOf(FindHeaders(s));
      && Fits(t, |s|)
      && Parse(s) == FillUpTo(SectionKeys(t), SectionValues(s, t), |t.labels|)
  {
    var t := SectionsOf(FindHeaders(s));
    SectionsFit(s);
    var keys := SectionKeys(t);
    var values := SectionValues(s, t);
    var d := FillUpTo(keys, values, |t.labels|);
    forall k | k in d ensures Strip(d[k]) == d[k] {
      var i := FillValues(keys, values, |t.labels|, k);
      if d[k] != "" {
        SectionValueClean(s, t, i);
        StripOfClean(d[k]);
      }
    }
    StripValuesOfClean(d);
  }

  /** The result has exactly the eight keys and every value is clean. */
  lemma ParseShape(s: string)
    ensures Parse(s).Keys == set k | k in FieldNames
    ensures forall k :: k in Parse(s) ==> Clean(Parse(s)[k])
  {
    var t := SectionsOf(FindHeaders(s));
    FinalStripChangesNothing(s);
    var keys := SectionKeys(t);
    var values := SectionValues(s, t);
    forall k | k in Parse(s) ensures Clean(Parse(s)[k]) {
      var i := FillValues(keys, values, |t.labels|, k);
      if Parse(s)[k] != "" {
        SectionValueClean(s, t, i);
      }
    }
  }

  /** A field is non-empty only if some header's label normalises to it:
      headers with other labels are ignored. */
  lemma ParseFieldHasHeader(s: string, key: string) returns (h: Header)
    requires key in Parse(s) && Parse(s)[key] != ""
    ensures h in FindHeaders(s) && Normalize(h.group) == key
  {
    var hs := FindHeaders(s);
    var t := SectionsOf(hs);
    FinalStripChangesNothing(s);
    var i := FillValues(SectionKeys(t), SectionValues(s, t), |t.labels|, key);
    var l := t.labels[i];
    var j := SectionOffsetFrom(hs, l);
    h := hs[j];
  }

  /** The value of a key is the section of the last `sections` key that
      normalises to it (chatbot/chatbot.py:125-132). */
  lemma ParseValue(s: string, i: nat)
    requires var t := SectionsOf(FindHeaders(s));
      && i < |t.labels|
      && Normalize(t.labels[i]) in FieldNames
      && forall j :: i < j < |t.labels| ==> Normalize(t.labels[j]) != Normalize(t.labels[i])
    ensures var t := SectionsOf(FindHeaders(s));
      && Fits(t, |s|)
      && Normalize(t.labels[i]) in Parse(s)
      && Parse(s)[Normalize(t.labels[i])] == SectionValue(s, t, i)
  {
    var t := SectionsOf(FindHeaders(s));
    FinalStripChangesNothing(s);
    var keys := SectionKeys(t);
    forall j | i < j < |t.labels| ensures keys[j] != keys[i] {
    }
    FillLastWins(keys, SectionValues(s, t), |t.labels|, i);
  }

  /** A reply without `*` has no header, so every field stays "". */
  lemma ParseWithoutStars(s: string)
    requires '*' !in s
    ensures Parse(s) == EmptyFields()
  {
    NoStarsNoHeaders(s, 0);
    var t := SectionsOf(FindHeaders(s));
    assert t.labels == [];
    var d := EmptyFields();
    assert StripValues(d) == d;
  }

  /** Where there is no `*`, no header starts. */
  lemma {:induction false} NoStarsNoHeaders(s: string, p: nat)
    requires p <= |s| && forall k :: p <= k < |s| ==> s[k] != '*'
    ensures FindHeadersFrom(s, p) == []
    decreases |s| - p
  {
    if p < |s| {
      NoStarsNoHeaders(s, p + 1);
    }
  }

  /** Offsets without `*` start no header: the search moves past them. */
  lemma {:induction false} SkipNoStars(s: string, p: nat, q: nat)
    requires p <= q <= |s| && forall k :: p <= k < q ==> s[k] != '*'
    ensures FindHeadersFrom(s, p) == FindHeadersFrom(s, q)
    decreases q - p
  {
    if p < q {
      SkipNoStars(s, p + 1, q);
    }
  }

  // ---------------------------------------------------------------------------
  // Replies made of whole sections

  /** `x` is one section `**group:**body`: a label the pattern accepts and a
      body without `*`. */
  ghost predicate IsSection(x: string, group: string, body: string)
  {
    && |group| >= 1
    && (forall k :: 0 <= k < |group| ==> IsLabelChar(group[k]))
    && '*' !in body
    && x == "**" + group + ":**" + body
  }

  /** A section at offset `p` is found there, and the search resumes after it. */
  lemma SectionHeaders(x: string, group: string, body: string, s: string, p: nat)
    requires IsSection(x, group, body)
    requires p + |x| <= |s| && s[p..p + |x|] == x
    ensures FindHeadersFrom(s, p) == [Header(group, p)] + FindHeadersFrom(s, p + |x|)
  {
    SectionHeaderMatches(x, group, body, s, p);
    SectionBodySkipped(x, group, body, s, p);
  }

  /** The header of a section at `p` is matched there. */
  lemma SectionHeaderMatches(x: string, group: string, body: string, s: string, p: nat)
    requires IsSection(x, group, body)
    requires p + |x| <= |s| && s[p..p + |x|] == x
    ensures FindHeadersFrom(s, p) == [Header(group, p)] + FindHeadersFrom(s, p + |group| + 5)
  {
    SectionIsHeader(x, group, body, s, p);
    MatchAtComplete(s, p, group);
  }

  /** A section at `p` is a match of the pattern at `p`. */
  lemma SectionIsHeader(x: string, group: string, body: string, s: string, p: nat)
    requires IsSection(x, group, body)
    requires p + |x| <= |s| && s[p..p + |x|] == x
    ensures IsHeaderAt(s, p, group)
  {
    var n := |group| + 5;
    SectionStartsWithHeader(group, body);
    assert s[p..p + n] == s[p..p + |x|][..n];
  }

  /** A section begins with its header. */
  lemma SectionStartsWithHeader(group: string, body: string)
    ensures ("**" + group + ":**" + body)[..|group| + 5] == "**" + group + ":**"
  {
  }

  /** The body of a section at `p` holds no header. */
  lemma SectionBodySkipped(x: string, group: string, body: string, s: string, p: nat)
    requires IsSection(x, group, body)
    requires p + |x| <= |s| && s[p..p + |x|] == x
    ensures FindHeadersFrom(s, p + |group| + 5) == FindHeadersFrom(s, p + |x|)
  {
    var n := |group| + 5;
    forall k | p + n <= k < p + |x| ensures s[k] != '*' {
      assert s[k] == x[k - p] == body[k - p - n];
      assert body[k - p - n] in body;
    }
    SkipNoStars(s, p + n, p + |x|);
  }

  /** The headers of a reply of two sections. */
  lemma TwoSectionHeaders(a: string, g1: string, b1: string, b: string, g2: string, b2: string)
    requires IsSection(a, g1, b1) && IsSection(b, g2, b2)
    ensures FindHeaders(a + b) == [Header(g1, 0), Header(g2, |a|)]
  {
    FirstSectionHeader(a, g1, b1, b);
    LastSectionHeader(a, b, g2, b2);
  }

  /** A reply that starts with a section: its header, then the search goes on after it. */
  lemma FirstSectionHeader(a: string, g1: string, b1: string, b: string)
    requires IsSection(a, g1, b1)
    ensures FindHeadersFrom(a + b, 0) == [Header(g1, 0)] + FindHeadersFrom(a + b, |a|)
  {
    PrefixOfAppend(a, b);
    SectionHeaders(a, g1, b1, a + b, 0);
  }

  /** Slicing a concatenation back into its parts. */
  lemma PrefixOfAppend(a: string, b: string)
    ensures (a + b)[0..|a|] == a && (a + b)[|a|..|a| + |b|] == b
  {
  }

  /** A reply that ends with a section: its header is the last one found. */
  lemma LastSectionHeader(a: string, b: string, g2: string, b2: string)
    requires IsSection(b, g2, b2)
    ensures FindHeadersFrom(a + b, |a|) == [Header(g2, |a|)]
  {
    var s := a + b;
    PrefixOfAppend(a, b);
    SectionHeaders(b, g2, b2, s, |a|);
    HeadersAtEnd(s);
  }

  /** The search ends at the end of the text. */
  lemma HeadersAtEnd(s: string)
    ensures FindHeadersFrom(s, |s|) == []
  {
  }

  /** No `*` in a label. */
  lemma LabelHasNoStar(group: string)
    requires forall k :: 0 <= k < |group| ==> IsLabelChar(group[k])
    ensures '*' !in group
  {
  }

  /** Two headers with different labels give two keys, in header order. */
  lemma TwoHeaderSections(h1: Header, h2: Header)
    requires h1.group != h2.group
    ensures SectionsOf([h1, h2]) == Sections([h1.group, h2.group], map[h1.group := h1.start, h2.group := h2.start])
  {
    var hs := [h1, h2];
    assert hs[..1] == [h1] && hs[..1][..0] == [];
    var t0 := SectionsOf(hs[..1][..0]);
    assert t0 == Sections([], map[]);
    var t1 := SectionsOf(hs[..1]);
    assert t1 == AddHeader(t0, h1) == Sections([h1.group], map[h1.group := h1.start]);
    assert SectionsOf(hs) == AddHeader(t1, h2);
  }

  /** A key whose text, from its offset to the next key's, is one whole
      section has that section's body, stripped, as its value. */
  lemma SectionValueOfSection(s: string, t: Sections, i: nat, x: string, group: string, body: string)
    requires Fits(t, |s|) && i < |t.labels|
    requires IsSection(x, group, body)
    requires var p := t.offsets[t.labels[i]];
      SectionEnd(s, t, i) == p + |x| && s[p..p + |x|] == x
    ensures SectionValue(s, t, i) == Strip(body)
  {
    var p := t.offsets[t.labels[i]];
    assert Slice(s, p, p + |x|) == x;
    LabelHasNoStar(group);
    LastPieceOfSection(group, body);
  }

  /** The `sections` dict of a reply of two sections with different labels. */
  lemma TwoSectionKeys(a: string, g1: string, b1: string, b: string, g2: string, b2: string)
    requires IsSection(a, g1, b1) && IsSection(b, g2, b2) && g1 != g2
    ensures SectionsOf(FindHeaders(a + b)) == Sections([g1, g2], map[g1 := 0, g2 := |a|])
  {
    TwoSectionHeaders(a, g1, b1, b, g2, b2);
    TwoHeaderSections(Header(g1, 0), Header(g2, |a|));
  }

  /** The section values of a reply of two sections. */
  lemma TwoSectionValues(a: string, g1: string, b1: string, b: string, g2: string, b2: string)
    requires IsSection(a, g1, b1) && IsSection(b, g2, b2) && g1 != g2
    ensures var t := Sections([g1, g2], map[g1 := 0, g2 := |a|]);
      && Fits(t, |a + b|)
      && SectionValue(a + b, t, 0) == Strip(b1)
      && SectionValue(a + b, t, 1) == Strip(b2)
  {
    var s := a + b;
    var t := Sections([g1, g2], map[g1 := 0, g2 := |a|]);
    assert Fits(t, |s|);
    assert s[0..|a|] == a;
    SectionValueOfSection(s, t, 0, a, g1, b1);
    assert s[|a|..|a| + |b|] == b;
    SectionValueOfSection(s, t, 1, b, g2, b2);
  }

  /** The two keys of a reply of two sections hold the two bodies, stripped. */
  lemma TwoSectionFields(a: string, g1: string, b1: string, b: string, g2: string, b2: string)
    requires IsSection(a, g1, b1) && IsSection(b, g2, b2)
    requires Normalize(g1) in FieldNames && Normalize(g2) in FieldNames
    requires Normalize(g1) != Normalize(g2)
    ensures Normalize(g1) in Parse(a + b) && Parse(a + b)[Normalize(g1)] == Strip(b1)
    ensures Normalize(g2) in Parse(a + b) && Parse(a + b)[Normalize(g2)] == Strip(b2)
  {
    var s := a + b;
    TwoSectionKeys(a, g1, b1, b, g2, b2);
    TwoSectionValues(a, g1, b1, b, g2, b2);
    ParseValue(s, 0);
    ParseValue(s, 1);
  }

  /** A reply of two sections whose labels normalise to two different keys:
      each key holds its body stripped, every other key "". */
  lemma ParseTwoSections(a: string, g1: string, b1: string, b: string, g2: string, b2: string)
    requires IsSection(a, g1, b1) && IsSection(b, g2, b2)
    requires Normalize(g1) in FieldNames && Normalize(g2) in FieldNames
    requires Normalize(g1) != Normalize(g2)
    ensures Parse(a + b) == EmptyFields()[Normalize(g1) := Strip(b1)][Normalize(g2) := Strip(b2)]
  {
    var m := Parse(a + b);
    TwoSectionFields(a, g1, b1, b, g2, b2);
    ParseShape(a + b);
    TwoSectionOtherFields(a, g1, b1, b, g2, b2);
    TwoFieldsSet(m, Normalize(g1), Strip(b1), Normalize(g2), Strip(b2));
  }

  /** A dict with the eight keys, two of them set and the rest "", is the
      first-built dict with those two assignments. */
  lemma TwoFieldsSet(m: map<string, string>, k1: string, v1: string, k2: string, v2: string)
    requires m.Keys == set k | k in FieldNames
    requires k1 in m && m[k1] == v1 && k2 in m && m[k2] == v2
    requires forall k :: k in m && k != k1 && k != k2 ==> m[k] == ""
    ensures m == EmptyFields()[k1 := v1][k2 := v2]
  {
    var d := EmptyFields()[k1 := v1][k2 := v2];
    assert m.Keys == d.Keys;
    forall k | k in d ensures m[k] == d[k] {
    }
  }

  /** The other keys of a reply of two sections stay "". */
  lemma TwoSectionOtherFields(a: string, g1: string, b1: string, b: string, g2: string, b2: string)
    requires IsSection(a, g1, b1) && IsSection(b, g2, b2)
    ensures forall k :: k in Parse(a + b) && k != Normalize(g1) && k != Normalize(g2) ==> Parse(a + b)[k] == ""
  {
    TwoSectionHeaders(a, g1, b1, b, g2, b2);
    forall k | k in Parse(a + b) && k != Normalize(g1) && k != Normalize(g2) ensures Parse(a + b)[k] == "" {
      UnlabelledKeyEmpty(a + b, k);
    }
  }

  /** A key that no header's label normalises to stays "". */
  lemma UnlabelledKeyEmpty(s: string, key: string)
    requires key in Parse(s)
    requires forall i :: 0 <= i < |FindHeaders(s)| ==> Normalize(FindHeaders(s)[i].group) != key
    ensures Parse(s)[key] == ""
  {
    if Parse(s)[key] != "" {
      var h := ParseFieldHasHeader(s, key);
    }
  }

  /** A header followed by a body without `*` is a section. */
  lemma HeaderThenBody(group: string, body: string)
    requires |group| >= 1 && forall k :: 0 <= k < |group| ==> IsLabelChar(group[k])
    requires '*' !in body
    ensures IsSection("**" + group + ":**" + body, group, body)
  {
  }

  /** `parse_plot_points_response` on a worked reply: each section's text
      after its header, stripped, under its key, and "" everywhere else. */
  lemma ParseWorkedReply(s: string)
    requires s == "**Decisions:** She left.\n" + "**Conflicts:** Man vs self."
    ensures Parse(s) == EmptyFields()["decisions" := "She left."]["conflicts" := "Man vs self."]
  {
    WorkedSplit();
    var a := "**" + "Decisions" + ":**" + " She left.\n";
    var b := "**" + "Conflicts" + ":**" + " Man vs self.";
    assert forall k :: 0 <= k < |"Decisions"| ==> IsLabelChar("Decisions"[k]);
    assert forall k :: 0 <= k < |"Conflicts"| ==> IsLabelChar("Conflicts"[k]);
    HeaderThenBody("Decisions", " She left.\n");
    HeaderThenBody("Conflicts", " Man vs self.");
    WorkedKeys();
    WorkedBodies();
    ParseTwoSections(a, "Decisions", " She left.\n", b, "Conflicts", " Man vs self.");
  }

  /** The two parts of the worked reply, as header and body. */
  lemma WorkedSplit()
    ensures "**Decisions:** She left.\n" == "**" + "Decisions" + ":**" + " She left.\n"
    ensures "**Conflicts:** Man vs self." == "**" + "Conflicts" + ":**" + " Man vs self."
  {
  }

  /** The two bodies of the worked reply, stripped. */
  lemma WorkedBodies()
    ensures Strip(" She left.\n") == "She left."
    ensures Strip(" Man vs self.") == "Man vs self."
  {
    StripOfClean("She left.");
    StripOfClean("Man vs self.");
    assert StripLeading(" She left.\n") == "She left.\n";
    assert StripLeading(" Man vs self.") == "Man vs self.";
  }

  /** The two labels of the worked reply normalise to keys of the dict. */
  lemma WorkedKeys()
    ensures Normalize("Decisions") == "decisions" && Normalize("Conflicts") == "conflicts"
  {
    StripOfClean("Decisions");
    StripOfClean("Conflicts");
    assert Lower("Decisions") == "decisions";
    assert Lower("Conflicts") == "conflicts";
  }

  // ---------------------------------------------------------------------------
  // The imperative parser

  /** `sections = {match.group(1): match.start() for match in matches}`. */
  method CollectSections(matches: seq<Header>) returns (labels: seq<string>, offsets: map<string, nat>)
    ensures Sections(labels, offsets) == SectionsOf(matches)
  {
    labels := [];
    offsets := map[];
    var m := 0;
    while m < |matches|
      invariant 0 <= m <= |matches|
      invariant Sections(labels, offsets) == SectionsOf(matches[..m])
    {
      var h := matches[m];
      assert matches[..m + 1][..m] == matches[..m];
      if h.group !in offsets {
        labels := labels + [h.group];
      }
      offsets := offsets[h.group := h.start];
      m := m + 1;
    }
    assert matches[..m] == matches;
  }

  /** The loop over `sections` (chatbot/chatbot.py:125-133): each key's slice,
      cut at the last `**` and stripped, is stored under the normalised key
      when that is one of the eight. */
  method FillFields(response: string, labels: seq<string>, offsets: map<string, nat>)
    returns (data: map<string, string>)
    requires Fits(Sections(labels, offsets), |response|)
    ensures data == FillUpTo(SectionKeys(Sections(labels, offsets)),
                             SectionValues(response, Sections(labels, offsets)), |labels|)
  {
    ghost var t := Sections(labels, offsets);
    ghost var keys := SectionKeys(t);
    ghost var values := SectionValues(response, t);
    data := EmptyFields();
    var i := 0;
    while i < |labels|
      invariant 0 <= i <= |labels|
      invariant data == FillUpTo(keys, values, i)
    {
      var startPos := offsets[labels[i]];
      var endPos := if i + 1 < |labels| then offsets[labels[i + 1]] else |response|;
      var content := Slice(response, startPos, endPos);
      var key := Normalize(labels[i]);
      SectionAt(response, t, i, startPos, endPos);
      FillStep(keys, values, i, data);
      if key in data {
        data := data[key := Strip(LastPiece(content))];
      }
      i := i + 1;
    }
  }

  /** `parse_plot_points_response(response)`. */
  method ParsePlotPointsResponse(response: string) returns (data: map<string, string>)
    ensures data == Parse(response)
  {
    var matches := FindHeaders(response);
    var labels, offsets := CollectSections(matches);
    SectionsFit(response);
    data := FillFields(response, labels, offsets);
    FinalStripChangesNothing(response);
    ghost var filled := data;
    var j := 0;
    while j < |FieldNames|
      invariant 0 <= j <= |FieldNames|
      invariant data == filled
    {
      var key := FieldNames[j];
      assert key in filled;
      data := data[key := Strip(data[key])];
      j := j + 1;
    }
  }
}
