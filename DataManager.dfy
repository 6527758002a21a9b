/** `AnalysisData` (data_manager.py): two dictionaries keyed by file name, one
    for transcripts and one for completion responses, written in place by the
    `add_*` methods and read with an empty-string default by the `get_*` ones. */
module DataManager {

  /** `d.get(key, "")`. */
  function GetOrEmpty(d: map<string, string>, key: string): (r: string)
    ensures key in d ==> r == d[key]
    ensures key !in d ==> r == ""
  {
    if key in d then d[key] else ""
  }

  class AnalysisData {
    var transcripts: map<string, string>
    var gptResponses: map<string, string>

    /** A fresh store holds nothing in either table. */
    constructor ()
      ensures transcripts == map[] && gptResponses == map[]
    {
      transcripts := map[];
      gptResponses := map[];
    }

    /** `add_transcript(file_name, content)`: sets or overwrites one transcript
        entry; the responses are left alone. */
    method AddTranscript(fileName: string, content: string)
      modifies this
      ensures transcripts == old(transcripts)[fileName := content]
      ensures gptResponses == old(gptResponses)
      ensures GetTranscript(fileName) == content
      ensures forall n :: n != fileName ==> GetTranscript(n) == old(GetTranscript(n))
    {
      transcripts := transcripts[fileName := content];
    }

    /** `add_gpt_response(file_name, response)`: sets or overwrites one response
        entry; the transcripts are left alone. */
    method AddGptResponse(fileName: string, response: string)
      modifies this
      ensures gptResponses == old(gptResponses)[fileName := response]
      ensures transcripts == old(transcripts)
      ensures GetGptResponse(fileName) == response
      ensures forall n :: n != fileName ==> GetGptResponse(n) == old(GetGptResponse(n))
    {
      gptResponses := gptResponses[fileName := response];
    }

    /** `get_transcript(file_name)`: the stored transcript, or `""` for a name
        never added. */
    function GetTranscript(fileName: string): (r: string)
      reads this
      ensures fileName in transcripts ==> r == transcripts[fileName]
      ensures fileName !in transcripts ==> r == ""
    {
      GetOrEmpty(transcripts, fileName)
    }

    /** `get_gpt_response(file_name)`: the stored response, or `""` for a name
        never added. */
    function GetGptResponse(fileName: string): (r: string)
      reads this
      ensures fileName in gptResponses ==> r == gptResponses[fileName]
      ensures fileName !in gptResponses ==> r == ""
    {
      GetOrEmpty(gptResponses, fileName)
    }
  }

  // ---------------------------------------------------------------------------
  // A run of calls on one store, as values

  /** One call of an `add_*` method. */
  datatype Call = AddTranscript(name: string, content: string) | AddGptResponse(name: string, response: string)

  datatype Tables = Tables(transcripts: map<string, string>, gptResponses: map<string, string>)

  /** The tables after the calls `calls`, made in order on a fresh store. */
  function Replay(calls: seq<Call>): Tables {
    if calls == [] then Tables(map[], map[])
    else
      var t := Replay(calls[..|calls| - 1]);
      match calls[|calls| - 1]
      case AddTranscript(n, c) => t.(transcripts := t.transcripts[n := c])
      case AddGptResponse(n, r) => t.(gptResponses := t.gptResponses[n := r])
  }

  /** Reference: the content of the last `add_transcript` call for `name`, or
      `""` if there is none, found by reading the calls from the end. */
  function LastTranscript(calls: seq<Call>, name: string): string {
    if calls == [] then ""
    else
      var c := calls[|calls| - 1];
      if c.AddTranscript? && c.name == name then c.content else LastTranscript(calls[..|calls| - 1], name)
  }

  /** Reference: the response of the last `add_gpt_response` call for `name`,
      or `""` if there is none. */
  function LastResponse(calls: seq<Call>, name: string): string {
    if calls == [] then ""
    else
      var c := calls[|calls| - 1];
      if c.AddGptResponse? && c.name == name then c.response else LastResponse(calls[..|calls| - 1], name)
  }

  /** The last write wins: after any run of calls, `get_transcript(name)` is the
      content of the last `add_transcript` for that name, and
      `get_gpt_response(name)` the response of the last `add_gpt_response` for
      it; a name never added reads as `""`. */
  lemma {:induction false} LastWriteWins(calls: seq<Call>, name: string)
    ensures GetOrEmpty(Replay(calls).transcripts, name) == LastTranscript(calls, name)
    ensures GetOrEmpty(Replay(calls).gptResponses, name) == LastResponse(calls, name)
  {
    if calls != [] {
      LastWriteWins(calls[..|calls| - 1], name);
    }
  }

  /** The two tables are independent: calls of one kind never change what the
      other table returns. */
  lemma {:induction false} TablesIndependent(calls: seq<Call>)
    ensures (forall c :: c in calls ==> c.AddTranscript?) ==> Replay(calls).gptResponses == map[]
    ensures (forall c :: c in calls ==> c.AddGptResponse?) ==> Replay(calls).transcripts == map[]
  {
    if calls != [] {
      assert forall c :: c in calls[..|calls| - 1] ==> c in calls;
      TablesIndependent(calls[..|calls| - 1]);
      assert calls[|calls| - 1] in calls;
    }
  }

  /** Running calls on the class gives the tables `Replay` describes. */
  method RunCalls(store: AnalysisData, calls: seq<Call>)
    requires store.transcripts == map[] && store.gptResponses == map[]
    modifies store
    ensures store.transcripts == Replay(calls).transcripts
    ensures store.gptResponses == Replay(calls).gptResponses
  {
    for i := 0 to |calls|
      invariant store.transcripts == Replay(calls[..i]).transcripts
      invariant store.gptResponses == Replay(calls[..i]).gptResponses
    {
      assert calls[..i + 1][..i] == calls[..i];
      match calls[i]
      case AddTranscript(n, c) => store.AddTranscript(n, c);
      case AddGptResponse(n, r) => store.AddGptResponse(n, r);
    }
    assert calls[..|calls|] == calls;
  }
}
