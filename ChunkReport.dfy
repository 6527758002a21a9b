/** The response-file assembly of `send_to_gpt` (send_to_gpt.py): the transcript
    is cut into 4000-character chunks, each chunk is sent in one completion call,
    and each call that succeeds appends one numbered block to the output file.
    The completion service is replaced by the outcome of each call, given in
    chunk order. */
module ChunkReport {
  import opened Strings
  import Chunker

  const CHUNK_SIZE: nat := 4000

  /** The outcome of the call for one chunk: the message content, or the
      exception that the `except` clause catches. */
  datatype CallOutcome = Completed(content: string) | CallFailed(error: string)

  /** A successful call: the 0-based chunk index and the content it returned. */
  datatype Response = Response(index: nat, content: string)

  function Prompt(chunk: string): string {
    "Analyze the following chunk of code from a repository:\n\n" + chunk
  }

  /** The block written for chunk `index` (numbered from 1 in the text). */
  function ResponseBlock(index: nat, total: nat, result: string): (r: string)
    ensures StartsWith(r, "\n\n--- Response for chunk " + Decimal(index + 1) + " of ")
    ensures EndsWith(r, result + "\n")
  {
    "\n\n--- Response for chunk " + Decimal(index + 1) + " of " + Decimal(total) + " ---\n\n" + result + "\n"
  }

  /** What the loop body writes for chunk `index`: its block if the call
      succeeded, nothing if it failed. */
  function Written(index: nat, total: nat, outcome: CallOutcome): string {
    if outcome.Completed? then ResponseBlock(index, total, Strip(outcome.content)) else []
  }

  /** The successful calls, in chunk order. */
  function Responses(outcomes: seq<CallOutcome>): seq<Response> {
    if outcomes == [] then []
    else
      var i := |outcomes| - 1;
      Responses(outcomes[..i]) + Answered(i, outcomes[i])
  }

  /** The response a call for chunk `i` contributes: one if it succeeded. */
  function Answered(i: nat, outcome: CallOutcome): seq<Response> {
    if outcome.Completed? then [Response(i, outcome.content)] else []
  }

  /** The output text for a sequence of responses, in their order: each
      response's content is stripped before it is written. */
  function Render(rs: seq<Response>, total: nat): string {
    if rs == [] then []
    else
      var r := rs[|rs| - 1];
      Render(rs[..|rs| - 1], total) + ResponseBlock(r.index, total, Strip(r.content))
  }

  /** The responses whose chunk index is not `k`. */
  function Without(rs: seq<Response>, k: nat): seq<Response> {
    if rs == [] then []
    else
      var r := rs[|rs| - 1];
      Without(rs[..|rs| - 1], k) + (if r.index == k then [] else [r])
  }

  /** `send_to_gpt(transcript_file_path)`: returns the prompts it sends, one per
      chunk, and what it writes to the response file. A failed call writes
      nothing and the loop goes on with the next chunk. */
  method SendToGpt(transcript: string, outcomes: seq<CallOutcome>) returns (prompts: seq<string>, output: string)
    requires |outcomes| == |Chunker.ChunkText(transcript, CHUNK_SIZE)|
    ensures var chunks := Chunker.ChunkText(transcript, CHUNK_SIZE);
            |prompts| == |chunks| && forall i :: 0 <= i < |chunks| ==> prompts[i] == Prompt(chunks[i])
    ensures output == Render(Responses(outcomes), |outcomes|)
    ensures transcript == [] ==> prompts == [] && output == []
  {
    var chunks := Chunker.ChunkText(transcript, CHUNK_SIZE);
    Chunker.ChunkLengths(transcript, CHUNK_SIZE);
    prompts, output := AnalyzeChunks(chunks, outcomes);
    PromptsAt(chunks);
  }

  /** The `for i, chunk in enumerate(chunks)` loop: one prompt per chunk, and
      one block per successful call, numbered out of `len(chunks)`. */
  method AnalyzeChunks(chunks: seq<string>, outcomes: seq<CallOutcome>) returns (prompts: seq<string>, output: string)
    requires |outcomes| == |chunks|
    ensures prompts == Prompts(chunks)
    ensures output == Render(Responses(outcomes), |chunks|)
  {
    var total := |chunks|;
    prompts, output := [], [];
    for i := 0 to |chunks|
      invariant prompts == Prompts(chunks[..i])
      invariant output == Render(Responses(outcomes[..i]), total)
    {
      var prompt;
      RenderStep(outcomes, i, total);
      PromptsStep(chunks, i);
      prompt, output := AnalyzeChunk(i, total, chunks[i], outcomes[i], output);
      prompts := prompts + [prompt];
    }
    assert outcomes[..|chunks|] == outcomes && chunks[..|chunks|] == chunks;
  }

  lemma PromptsStep(chunks: seq<string>, i: nat)
    requires i < |chunks|
    ensures Prompts(chunks[..i + 1]) == Prompts(chunks[..i]) + [Prompt(chunks[i])]
  {
    assert chunks[..i + 1][..i] == chunks[..i];
  }

  /** The prompts sent for `chunks`, in order. */
  function Prompts(chunks: seq<string>): seq<string> {
    if chunks == [] then [] else Prompts(chunks[..|chunks| - 1]) + [Prompt(chunks[|chunks| - 1])]
  }

  /** One prompt per chunk, each embedding its chunk. */
  lemma {:induction false} PromptsAt(chunks: seq<string>)
    ensures |Prompts(chunks)| == |chunks|
    ensures forall i :: 0 <= i < |chunks| ==> Prompts(chunks)[i] == Prompt(chunks[i])
  {
    if chunks != [] {
      PromptsAt(chunks[..|chunks| - 1]);
    }
  }

  /** The body of the loop for chunk `i`: the prompt it sends, and the output
      with the block for that chunk appended if the call succeeded. */
  method AnalyzeChunk(i: nat, total: nat, chunk: string, outcome: CallOutcome, output0: string)
    returns (prompt: string, output: string)
    ensures prompt == Prompt(chunk)
    ensures output == output0 + Written(i, total, outcome)
  {
    prompt := Prompt(chunk);
    output := output0;
    match outcome
    case Completed(content) =>
      var result := Strip(content);
      output := output + ResponseBlock(i, total, result);
    case CallFailed(_) =>
  }

  /** One more call either appends its block to the output or leaves it as it was. */
  lemma RenderStep(outcomes: seq<CallOutcome>, i: nat, total: nat)
    requires i < |outcomes|
    ensures Render(Responses(outcomes[..i + 1]), total)
            == Render(Responses(outcomes[..i]), total) + Written(i, total, outcomes[i])
  {
    var pre := outcomes[..i + 1];
    assert pre[..i] == outcomes[..i];
    var rs := Responses(outcomes[..i]);
    match outcomes[i]
    case Completed(content) =>
      assert Responses(pre) == rs + [Response(i, content)];
      assert (rs + [Response(i, content)])[..|rs|] == rs;
    case CallFailed(_) =>
      assert Responses(pre) == rs;
  }

  /** A response comes from a successful call and carries that call's content. */
  lemma {:induction false} ResponsesSound(outcomes: seq<CallOutcome>)
    ensures forall r :: r in Responses(outcomes) ==>
              r.index < |outcomes| && outcomes[r.index].Completed?
              && r.content == outcomes[r.index].content
  {
    if outcomes != [] {
      var i := |outcomes| - 1;
      var init := outcomes[..i];
      ResponsesSound(init);
      assert forall k :: 0 <= k < i ==> outcomes[k] == init[k];
    }
  }

  /** Every successful call has its response. */
  lemma {:induction false} ResponsesComplete(outcomes: seq<CallOutcome>)
    ensures forall k :: 0 <= k < |outcomes| && outcomes[k].Completed? ==>
              Response(k, outcomes[k].content) in Responses(outcomes)
  {
    if outcomes != [] {
      var i := |outcomes| - 1;
      var init := outcomes[..i];
      ResponsesComplete(init);
      forall k | 0 <= k < i && outcomes[k].Completed?
        ensures Response(k, outcomes[k].content) in Responses(outcomes)
      {
        assert outcomes[k] == init[k];
      }
    }
  }

  /** The responses, and so the blocks, are in strictly increasing chunk order. */
  lemma {:induction false} ResponsesOrdered(outcomes: seq<CallOutcome>)
    ensures forall a, b :: 0 <= a < b < |Responses(outcomes)| ==>
              Responses(outcomes)[a].index < Responses(outcomes)[b].index
  {
    if outcomes != [] {
      var i := |outcomes| - 1;
      var init := outcomes[..i];
      ResponsesOrdered(init);
      ResponsesSound(init);
      var rs0 := Responses(init);
      var rs := Responses(outcomes);
      assert rs[..|rs0|] == rs0;
      forall a, b | 0 <= a < b < |rs| ensures rs[a].index < rs[b].index {
        if b >= |rs0| {
          assert outcomes[i].Completed? && b == |rs0| && rs[b] == Response(i, outcomes[i].content);
          assert rs[a] == rs0[a] && rs0[a] in rs0;
        } else {
          assert rs[a] == rs0[a] && rs[b] == rs0[b];
        }
      }
    }
  }

  /** Failure isolation: the output of a run in which chunk `k`'s call fails is
      the output of a run in which it succeeds minus that chunk's block; no other
      block, and neither the numbering nor the total, changes. */
  lemma {:induction false} FailureDropsOnlyItsBlock(outcomes: seq<CallOutcome>, k: nat, e: string)
    requires k < |outcomes|
    ensures Responses(outcomes[k := CallFailed(e)]) == Without(Responses(outcomes), k)
    decreases |outcomes|
  {
    var i := |outcomes| - 1;
    var failed := outcomes[k := CallFailed(e)];
    var init := outcomes[..i];
    var rs := Responses(init);
    var last := Answered(i, outcomes[i]);
    assert Responses(outcomes) == rs + last;
    WithoutAppend(rs, last, k);
    if k == i {
      assert failed[..i] == init;
      assert Responses(failed) == rs;
      ResponsesBelow(init);
      WithoutAbsent(rs, k);
      assert Without(last, k) == [];
    } else {
      assert failed[..i] == init[k := CallFailed(e)];
      assert Responses(failed) == Responses(init[k := CallFailed(e)]) + last;
      FailureDropsOnlyItsBlock(init, k, e);
      assert Without(last, k) == last;
    }
  }

  /** Every response of a run names one of its chunks. */
  lemma {:induction false} ResponsesBelow(outcomes: seq<CallOutcome>)
    ensures forall j :: 0 <= j < |Responses(outcomes)| ==> Responses(outcomes)[j].index < |outcomes|
  {
    if outcomes != [] {
      var i := |outcomes| - 1;
      ResponsesBelow(outcomes[..i]);
      assert Responses(outcomes) == Responses(outcomes[..i]) + Answered(i, outcomes[i]);
    }
  }

  lemma {:induction false} WithoutAppend(a: seq<Response>, b: seq<Response>, k: nat)
    ensures Without(a + b, k) == Without(a, k) + Without(b, k)
    decreases |b|
  {
    if b == [] {
      assert a + b == a;
    } else {
      var b' := b[..|b| - 1];
      assert (a + b)[..|a + b| - 1] == a + b';
      WithoutAppend(a, b', k);
    }
  }

  lemma {:induction false} WithoutAbsent(rs: seq<Response>, k: nat)
    requires forall j :: 0 <= j < |rs| ==> rs[j].index != k
    ensures Without(rs, k) == rs
    decreases |rs|
  {
    if rs != [] {
      var init := rs[..|rs| - 1];
      WithoutAbsent(init, k);
      assert rs == init + [rs[|rs| - 1]];
    }
  }

  /** With chunks of 4000 characters the chunks join back to the transcript,
      every chunk but the last is exactly 4000 characters long, and an empty
      transcript has no chunks. */
  lemma TranscriptChunks(transcript: string)
    ensures var chunks := Chunker.ChunkText(transcript, CHUNK_SIZE);
            && Concat(chunks) == transcript
            && (forall i :: 0 <= i < |chunks| - 1 ==> |chunks[i]| == CHUNK_SIZE)
            && (chunks == [] <==> transcript == [])
  {
    Chunker.ChunksConcat(transcript, CHUNK_SIZE);
    Chunker.ChunkLengths(transcript, CHUNK_SIZE);
  }
}
