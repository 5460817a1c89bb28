# Text-to-speech conversion: chunking, fail-fast synthesis, assembly

A Dafny model of `text_to_speech` in `Chatbot-meditate.py`, the one piece of
logic in this Streamlit front end. The function splits the user's text into
pieces of at most 4096 characters and sends them, one at a time and in index
order, to a speech-synthesis service. If any call fails, it reports the
failing chunk and returns `None`, so no audio is produced. Otherwise it
appends the decoded fragments, in order, to an initially empty buffer. It
exports that buffer as `combined_speech.mp3` and returns that path.

Modules:

- `Wrappers` (`wrappers.dfy`): `Option`, which stands for a Python `None` result.
- `Concat` (`concat.dfy`): `Flatten`, in-order concatenation written as the left
  fold `acc += piece`, and what it keeps: length, placement of every piece,
  and distribution over `+`.
- `Chunking` (`chunking.dfy`): the list comprehension of line 8 and its
  properties. These are chunk lengths, chunk count, offsets, exact
  reassembly, and uniqueness of the split.
- `Speech` (`speech.dfy`): the synthesis loop, the assembly loop and the
  whole conversion, as methods with loop invariants.

The speech service and the temporary-file round trip are an oracle of type
`(nat, string) -> Option<seq<S>>`. It takes the chunk index and the chunk
text, and gives either a fragment (an opaque sequence of samples) or a
failure. The voice and the API key stay the same for a whole run, so the
oracle captures them. The synthesis attempts of a run are returned as a
trace (`requests`). An attempt is logged before the client is built, so a
failure that happens before anything reaches the service is an attempt too, and the audio written to the output file is returned as
`exported`. This makes both observable.

## Model

| member | source | states |
|---|---|---|
| Chunking.CeilDiv | Chatbot-meditate.py:8 | the number of starts in `range(0, n, size)` is the least q with q*size >= n |
| Chunking.Chunk | Chatbot-meditate.py:8 | chunk k is the slice `text[k*size .. min(k*size+size, len)]`, cut short at the end of the text; it is non-empty, at most `size` long, exactly `size` long unless it is the last, and the last one ends at the end of the text |
| Chunking.Chunks | Chatbot-meditate.py:8 | the comprehension over `range(0, len(text), size)`: one chunk per start, `Chunk(text, size, k)` for k < CeilDiv(len, size); their number q satisfies q*size >= len > (q-1)*size |
| Chunking.ChunkLengths | Chatbot-meditate.py:7-8 | every chunk is non-empty and at most `size` characters; every chunk but the last is exactly `size` characters |
| Chunking.ChunkCount | Chatbot-meditate.py:8 | the chunk count is ceil(len(text)/size); there are no chunks exactly when the text is empty |
| Chunking.ChunksPrefix | Chatbot-meditate.py:8 | the first j chunks joined are the first j*size characters of the text (or all of it), so chunk j starts at offset j*size |
| Chunking.Reassemble | Chatbot-meditate.py:8 | joining the chunks in order gives back the input text exactly |
| Chunking.SplitIsUnique | Chatbot-meditate.py:8 | any list of non-empty pieces of at most `size` characters, all full but the last, that joins to the text is the chunk list |
| Concat.FlattenLength | Chatbot-meditate.py:25-27 | the combined audio is as long as all fragments together |
| Concat.FlattenAppend | Chatbot-meditate.py:25-27 | appending two runs of fragments equals appending their combinations |
| Concat.FragmentPlacement | Chatbot-meditate.py:25-27 | fragment i occurs intact in the combined audio, right after fragments 0..i-1: nothing dropped, reordered or duplicated |
| Speech.FirstFailureFrom | Chatbot-meditate.py:11-22 | the index of the first failing synthesis: every earlier chunk succeeds, the chunk at that index fails (if it is a chunk at all) |
| Speech.SynthesizeChunks | Chatbot-meditate.py:11-22 | requests go out as (i, chunk i) in index order and stop right after the first failure; the result is `None` exactly when some chunk fails; on success there is one fragment per chunk, the i-th being chunk i's |
| Speech.Combine | Chatbot-meditate.py:25-27 | the combined audio is the empty audio followed by every fragment in list order |
| Speech.TextToSpeech | Chatbot-meditate.py:6-32 | a run succeeds exactly when every chunk is synthesized; on success it returns `combined_speech.mp3` and exports all fragments joined in order; on failure at chunk k it returns `None`, exports nothing and never requests a chunk after k; empty text makes no request and exports empty audio |

## Left out

- Speech.TextToSpeech: failures after the synthesis loop (lines 25-31) are not
  modelled. These are `AudioSegment.empty()`, `combined += audio` and
  `combined.export(...)`, for example a missing mp3 encoder or an unwritable
  file. They sit outside the `try` of lines 12-22, so in the source they
  escape `text_to_speech` as uncaught exceptions rather than becoming `None`.
  In the model every fully synthesized run, and every run on empty text, exports
  and returns the path.
- The Streamlit page (lines 34-66): sidebar, title, text area, voice selector,
  button, the API-key guard with `st.stop`, the audio player and the download
  button. It is user-interface code.
- The OpenAI client and `client.audio.speech.create` (lines 13-16). This is a
  network call, and the oracle stands in for it. The model name `tts-1`, the
  voice and the API key are arguments of that call, so they are not modelled.
- File I/O: `stream_to_file` and the `chunk_{i}.mp3` files (lines 17-18), and
  the mp3 export (line 31). The exported audio is returned as a value instead.
  Reuse of those fixed file names across runs is not modelled.
- pydub decoding and encoding (`AudioSegment.from_mp3`, mp3 export) and audio
  durations. Fragments are opaque sequences. Codec behaviour is a library
  outside this model.
- The text of the `st.error` message (line 21). The model keeps only the fact
  that the failing call is the last request of the run.
- Python `len` counts code points. The model treats text as a sequence of
  Dafny `char` values and does no normalisation.
