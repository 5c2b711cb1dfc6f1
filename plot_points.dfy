/** The decision rules of `generate_plot_points` in chatbot/chatbot.py: reject a
    reply that mentions "Error", otherwise parse it, number the chapter by its
    place in the chapter list, build the record and save it. The chapter list
    and the reply are inputs; `save` appends to a log. */
module PlotPoints {
  import opened Text
  import opened PlotPointsParser
  import PromptExecutor

  /** The `PlotPoint` row. Each field holds `plot_points_data.get(key)`. */
  datatype PlotPoint = PlotPoint(
    book: string,
    chapter: string,
    chapterNumber: nat,
    deathAndTragicEvents: Option<string>,
    decisions: Option<string>,
    conflicts: Option<string>,
    characterDevelopment: Option<string>,
    symbolismAndImagery: Option<string>,
    foreshadowing: Option<string>,
    settingDescription: Option<string>,
    chapterSummary: Option<string>)

  /** What `generate_plot_points` returns: `(None, {"error": response})`, or the
      record together with the parsed dict. */
  datatype Generation =
    | Rejected(error: map<string, string>)
    | Generated(record: PlotPoint, data: map<string, string>)

  /** `dict.get(key)`. */
  function Get(d: map<string, string>, key: string): Option<string>
  {
    if key in d then Some(d[key]) else None
  }

  /** `chapter_list.index(chapter_name) + 1 if chapter_name in chapter_list else 0`. */
  function ChapterNumber(titles: seq<string>, chapter: string): (n: nat)
    ensures n > 0 <==> chapter in titles
    ensures n > 0 ==> n <= |titles| && titles[n - 1] == chapter
    ensures n > 0 ==> forall j :: 0 <= j < n - 1 ==> titles[j] != chapter
  {
    if chapter in titles then IndexOf(titles, chapter) + 1 else 0
  }

  /** The record built from the parsed dict (chatbot/chatbot.py:79-91). */
  function Record(book: string, chapter: string, number: nat, d: map<string, string>): PlotPoint
  {
    PlotPoint(book, chapter, number,
              Get(d, "death_and_tragic_events"), Get(d, "decisions"), Get(d, "conflicts"),
              Get(d, "character_development"), Get(d, "symbolism_and_imagery"),
              Get(d, "foreshadowing"), Get(d, "setting_description"), Get(d, "chapter_summary"))
  }

  /** `generate_plot_points` after the reply has arrived (chatbot/chatbot.py:71-96). */
  function Decide(book: string, chapter: string, titles: seq<string>, response: string): (g: Generation)
    ensures g.Rejected? <==> Contains(response, "Error")
    ensures g.Rejected? ==> g.error == map["error" := response]
    ensures g.Generated? ==> g.data == Parse(response)
  {
    if Contains(response, "Error") then Rejected(map["error" := response])
    else
      var d := Parse(response);
      Generated(Record(book, chapter, ChapterNumber(titles, chapter), d), d)
  }

  /** The fields of a record, in the dict's key order. */
  function Fields(p: PlotPoint): seq<Option<string>>
  {
    [p.deathAndTragicEvents, p.decisions, p.conflicts, p.characterDevelopment,
     p.symbolismAndImagery, p.foreshadowing, p.settingDescription, p.chapterSummary]
  }

  /** `p` is the record for `chapter` of `book` built from `d`: it names the
      book and chapter, numbers the chapter by its first listed position,
      from 1, when it is listed (0 otherwise), and field `i` holds the clean value of the `i`-th key. */
  predicate RecordMatches(p: PlotPoint, book: string, chapter: string, titles: seq<string>,
                          d: map<string, string>)
  {
    && p.book == book && p.chapter == chapter
    && (p.chapterNumber > 0 <==> chapter in titles)
    && (chapter in titles ==> p.chapterNumber <= |titles| && titles[p.chapterNumber - 1] == chapter)
    && (forall j :: 0 <= j < p.chapterNumber - 1 ==> titles[j] != chapter)
    && |Fields(p)| == |FieldNames|
    && forall i :: 0 <= i < |FieldNames| ==>
         && FieldNames[i] in d
         && Fields(p)[i] == Some(d[FieldNames[i]])
         && Clean(d[FieldNames[i]])
  }

  /** A reply without "Error" is generated, and its record is the record of the
      parsed reply. */
  lemma GeneratedRecord(book: string, chapter: string, titles: seq<string>, response: string)
    requires !Contains(response, "Error")
    ensures Decide(book, chapter, titles, response).Generated?
    ensures RecordMatches(Decide(book, chapter, titles, response).record, book, chapter, titles,
                          Decide(book, chapter, titles, response).data)
  {
    var d := Parse(response);
    ParseShape(response);
    assert forall i :: 0 <= i < |FieldNames| ==> FieldNames[i] in d;
    RecordFields(book, chapter, ChapterNumber(titles, chapter), d);
  }

  /** Field `i` of a record holds the dict's value for the `i`-th key. */
  lemma RecordFields(book: string, chapter: string, number: nat, d: map<string, string>)
    requires forall i :: 0 <= i < |FieldNames| ==> FieldNames[i] in d
    ensures forall i :: 0 <= i < |FieldNames| ==>
              Fields(Record(book, chapter, number, d))[i] == Some(d[FieldNames[i]])
  {
  }

  /** The log that `save` appends to. */
  class PlotPointStore {
    ghost var saved: seq<PlotPoint>

    constructor ()
      ensures saved == []
    {
      saved := [];
    }

    /** `generate_plot_points`, given the chapter list and the reply: a
        rejected reply saves nothing, any other is saved exactly once. */
    method GeneratePlotPoints(book: string, chapter: string, titles: seq<string>, response: string)
      returns (g: Generation)
      modifies this
      ensures g == Decide(book, chapter, titles, response)
      ensures saved == if g.Generated? then old(saved) + [g.record] else old(saved)
    {
      if Contains(response, "Error") {
        return Rejected(map["error" := response]);
      }
      var data := ParsePlotPointsResponse(response);
      var number := if chapter in titles then IndexOf(titles, chapter) + 1 else 0;
      var record := Record(book, chapter, number, data);
      saved := saved + [record];
      return Generated(record, data);
    }
  }

  /** A record built from the dict every field of which is "" has "" in
      every field. */
  lemma EmptyRecord(book: string, chapter: string, number: nat)
    ensures forall i :: 0 <= i < |FieldNames| ==>
              Fields(Record(book, chapter, number, EmptyFields()))[i] == Some("")
  {
    RecordFields(book, chapter, number, EmptyFields());
  }

  /** A reply with neither `*` nor `E` in it is not rejected, and it yields
      a record with every field "". */
  lemma PlainReplyIsSaved(book: string, chapter: string, titles: seq<string>, response: string)
    requires '*' !in response && 'E' !in response
    ensures var g := Decide(book, chapter, titles, response);
      && g.Generated?
      && g.data == EmptyFields()
      && forall i :: 0 <= i < |FieldNames| ==> Fields(g.record)[i] == Some("")
  {
    NotContainsWithoutFirstChar(response, "Error");
    ParseWithoutStars(response);
    EmptyRecord(book, chapter, ChapterNumber(titles, chapter));
  }

  /** The reply `execute_prompt` gives when every attempt failed holds neither
      "Error" nor a header, so it is not rejected: an all-empty record is
      built and saved. */
  lemma SentinelIsSaved(book: string, chapter: string, titles: seq<string>)
    ensures var g := Decide(book, chapter, titles, PromptExecutor.Sentinel);
      && g.Generated?
      && g.data == EmptyFields()
      && forall i :: 0 <= i < |FieldNames| ==> Fields(g.record)[i] == Some("")
  {
    PromptExecutor.SentinelIsPlain();
    PlainReplyIsSaved(book, chapter, titles, PromptExecutor.Sentinel);
  }
}
