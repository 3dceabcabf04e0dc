# Message-of-the-day store

A Dafny model of `MessageRepository`, the store behind a small web service that
keeps one "message of the day". The repository holds a dictionary that is only
ever used with the key `"motd"`:

- `GetMessage` answers the entry under `"motd"` when the key is present, and the
  literal `"No motd entered."` otherwise;
- `SetMessage(input)` stores `input` under `"motd"`, replacing any earlier entry,
  and answers the entry read back after the write.

Files:

- `Wrappers.dfy`: the `Option` datatype.
- `Store.dfy`: module `Store`. `NullableString` is a .NET string reference
  (`Null` or `Str(chars)`); `Lookup` and `Update` are the read and the write on a
  dictionary value, with lemmas for the fallback, read-after-write,
  last-write-wins, idempotence and the single-key invariant. The class
  `MessageRepository` has the mutable `dictionary` field, a constructor and the
  two methods, each tied to `Lookup`/`Update` by its `ensures`. `Scenario` is a
  client that runs a get/put session on a fresh repository through the
  methods' contracts alone.
- `Trace.dfy`: module `Trace`. A sequence of calls run one after another
  (`Run`), compared with a reference (`Expected`, built from `LastWrite`, the
  input of the latest write) that looks only at the calls; the lemmas prove by
  induction that every answer of every run equals the reference.

Nulls: the store does no validation and a concurrent dictionary accepts a `null`
value, so after `SetMessage(null)` the key is present and `GetMessage` answers
`null`, not the fallback text. The model keeps this case (`Null`). A read
therefore answers the fallback exactly when the key is absent, which is not the
same as "when no non-empty message was stored"; and a stored message equal to
`"No motd entered."` cannot be told apart from the fallback by its value
(`StoredFallbackIndistinguishable`).

## Model

| member | source | states |
|---|---|---|
| Store.MessageRepository.constructor | MessageRepository.cs:11 | a new repository starts with an empty dictionary, which satisfies the single-key invariant |
| Store.MessageRepository.GetMessage | MessageRepository.cs:13-21 | answers the entry under "motd" (possibly null) when the key is present, else exactly "No motd entered."; changes no state |
| Store.MessageRepository.SetMessage | MessageRepository.cs:23-27 | the dictionary becomes the old one with "motd" mapped to the input, hence exactly the one entry "motd" -> input; answers the input itself, for every input including empty and null |
| Store.EmptyAnswersFallback | MessageRepository.cs:11-20 | a read of the fresh, empty dictionary answers exactly "No motd entered." |
| Store.StoredFallbackIndistinguishable | MessageRepository.cs:15-20 | a store holding "No motd entered." differs from the empty store, yet a read answers the same in both, so a caller cannot tell a stored fallback text from an absent message |
| Store.ReadAfterWrite | MessageRepository.cs:15-25 | after writing any input the key is present and a read answers that input |
| Store.LastWriteWins | MessageRepository.cs:25 | writing a then b leaves the same state as writing b alone, and a read then answers b |
| Store.WriteIdempotent | MessageRepository.cs:25 | writing the same input twice leaves the same state as writing it once |
| Store.UpdateKeepsSingleKey | MessageRepository.cs:25 | from a single-key state a write leaves exactly one entry, "motd" -> input, and no key other than "motd" appears or disappears |
| Trace.Run | MessageRepository.cs:13-27 | a run of calls gives one answer per call, and from a single-key state ends in a single-key state |
| Trace.LastWriteIsLatest | MessageRepository.cs:25 | the latest write of a call sequence is absent exactly when every call is a read, and otherwise is the input of a write that no later write follows |
| Trace.FinalState | MessageRepository.cs:25 | the state after a run is the initial one, overwritten by the latest write when there is one |
| Trace.AnswerFromPrefix | MessageRepository.cs:13-27 | the answer of the i-th call is determined by the state the first i calls leave |
| Trace.AnswersMatchReference | MessageRepository.cs:13-27 | every answer of every run equals the reference: a write answers its input; a read answers the latest earlier write's input, or what the initial state answers when there was none |
| Trace.FreshReadAnswersFallback | MessageRepository.cs:11-20 | on a fresh repository, a read preceded only by reads answers "No motd entered." |
| Trace.KeyStaysPresent | MessageRepository.cs:15-27 | after any write the key stays present for the rest of the run and every later read answers the stored entry instead of the fallback |
| Trace.TraceReadAfterWrite | MessageRepository.cs:15-25 | after any history, a write of v followed by a read makes the read answer v |
| Trace.TraceLastWriteWins | MessageRepository.cs:25 | after any history, writes of a then b followed by a read make the read answer b |
| Trace.TraceWriteIdempotent | MessageRepository.cs:25 | after any history, writing v twice leaves the same state as writing it once, and a following read answers the same |
| Trace.RunKeepsSingleKey | MessageRepository.cs:11-25 | a run from a fresh repository never holds a key other than "motd", so at most one entry |
| Trace.GetPutSession | MessageRepository.cs:13-27 | get, put "hello", get, put "", get on a fresh repository answer "No motd entered.", "hello", "hello", "", "" |

## Left out

- The HTTP controller (`Controllers/NonZeroController.cs`): routing attributes and forwarding to the repository, plus its dependency-injection null check, belong to the web framework.
- Thread safety of the concurrent dictionary, and the property that concurrent writes followed by a read yield one of the submitted values: the model is sequential, one call after another.
- Process lifetime and persistence: the store lives only as long as the process; nothing outside one repository object is modelled.
