/**
 * `text_to_speech` (Chatbot-meditate.py, lines 6-32): split the text into
 * chunks, synthesize them one by one in index order, stop at the first
 * failure, otherwise append all fragments into one buffer and export it to a
 * fixed path.
 *
 * The speech service and the temporary `chunk_{i}.mp3` round trip are one
 * abstract oracle: given the chunk index and the chunk text it either yields
 * a decoded audio fragment or fails.  The voice and the API key are fixed for
 * a run, so they are part of the oracle.  Audio fragments are opaque
 * sequences of samples of type S.
 */
module Speech {
  import opened Wrappers
  import opened Concat
  import opened Chunking

  type Fragment<S> = seq<S>

  /** One synthesis attempt: `Some(fragment)` on success, `None` when the call
      raises. */
  type Oracle<S> = (nat, string) -> Option<Fragment<S>>

  /** One synthesis attempt: chunk index and chunk text.  An attempt is
      logged before the call is made, so a failure while setting up the
      client (before anything reaches the service) is an attempt too. */
  datatype Request = Request(index: nat, chunk: string)

  /** Where the combined audio is exported and what a successful run returns. */
  const OutputPath: string := "combined_speech.mp3"

  /** The first index, from i on, whose synthesis fails, or |chunks| if none does. */
  function FirstFailureFrom<S>(synth: Oracle<S>, chunks: seq<string>, i: nat): (k: nat)
    requires i <= |chunks|
    ensures i <= k <= |chunks|
    ensures forall j :: i <= j < k ==> synth(j, chunks[j]).Some?
    ensures k < |chunks| ==> synth(k, chunks[k]).None?
    decreases |chunks| - i
  {
    if i == |chunks| || synth(i, chunks[i]).None? then i
    else FirstFailureFrom(synth, chunks, i + 1)
  }

  function FirstFailure<S>(synth: Oracle<S>, chunks: seq<string>): nat
  {
    FirstFailureFrom(synth, chunks, 0)
  }

  /** The fragments of a run in which every chunk is synthesized. */
  function Spoken<S>(synth: Oracle<S>, chunks: seq<string>): seq<Fragment<S>>
    requires forall i :: 0 <= i < |chunks| ==> synth(i, chunks[i]).Some?
  {
    seq(|chunks|, i requires 0 <= i < |chunks| => synth(i, chunks[i]).value)
  }

  /** The synthesis loop (lines 11-22).  Requests go out in index order; the
      first failure stops the loop and discards what was collected.  On success
      there is one fragment per chunk, the i-th coming from chunk i. */
  method SynthesizeChunks<S>(synth: Oracle<S>, chunks: seq<string>)
    returns (audioFiles: Option<seq<Fragment<S>>>, requests: seq<Request>)
    ensures var k := FirstFailure(synth, chunks);
      audioFiles.Some? <==> k == |chunks|
    ensures audioFiles.Some? ==>
      |audioFiles.value| == |chunks| &&
      forall i :: 0 <= i < |chunks| ==> synth(i, chunks[i]) == Some(audioFiles.value[i])
    ensures var k := FirstFailure(synth, chunks);
      |requests| == (if k < |chunks| then k + 1 else k)
    ensures forall j :: 0 <= j < |requests| ==> requests[j] == Request(j, chunks[j])
  {
    var collected: seq<Fragment<S>> := [];
    requests := [];
    var i := 0;
    while i < |chunks|
      invariant 0 <= i <= |chunks|
      invariant |collected| == i == |requests|
      invariant forall j :: 0 <= j < i ==> synth(j, chunks[j]) == Some(collected[j])
      invariant forall j :: 0 <= j < i ==> requests[j] == Request(j, chunks[j])
    {
      requests := requests + [Request(i, chunks[i])];
      var response := synth(i, chunks[i]);
      if response.None? {
        return None, requests;
      }
      collected := collected + [response.value];
      i := i + 1;
    }
    audioFiles := Some(collected);
  }

  /** The assembly loop (lines 25-27): start from empty audio and append every
      fragment in list order. */
  method Combine<S>(audioFiles: seq<Fragment<S>>) returns (combined: Fragment<S>)
    ensures combined == Flatten(audioFiles)
  {
    combined := [];
    var i := 0;
    while i < |audioFiles|
      invariant 0 <= i <= |audioFiles|
      invariant combined == Flatten(audioFiles[..i])
    {
      assert audioFiles[..i + 1][..i] == audioFiles[..i];
      combined := combined + audioFiles[i];
      i := i + 1;
    }
    assert audioFiles[..i] == audioFiles;
  }

  /** The whole conversion.  `path` is the return value, `exported` the audio
      written to `OutputPath`, `requests` the synthesis
      attempts made, in order. */
  method TextToSpeech<S>(synth: Oracle<S>, text: string)
    returns (path: Option<string>, exported: Option<Fragment<S>>, requests: seq<Request>)
    ensures var chunks := Chunks(text, MaxLength);
      path.Some? <==> FirstFailure(synth, chunks) == |chunks|
    ensures exported.Some? <==> path.Some?
    ensures path.Some? ==> path.value == OutputPath
    ensures var chunks := Chunks(text, MaxLength);
      exported.Some? ==> exported.value == Flatten(Spoken(synth, chunks))
    ensures var chunks := Chunks(text, MaxLength); var k := FirstFailure(synth, chunks);
      |requests| == (if k < |chunks| then k + 1 else k) &&
      forall j :: 0 <= j < |requests| ==> requests[j] == Request(j, chunks[j])
    ensures text == [] ==> path == Some(OutputPath) && exported == Some([]) && requests == []
  {
    var chunks := Chunks(text, MaxLength);
    var audioFiles;
    audioFiles, requests := SynthesizeChunks(synth, chunks);
    if audioFiles.None? {
      return None, None, requests;
    }
    assert audioFiles.value == Spoken(synth, chunks);
    var combined := Combine(audioFiles.value);
    return Some(OutputPath), Some(combined), requests;
  }
}
