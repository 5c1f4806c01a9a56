# VerbFlash flashcard logic in Dafny

VerbFlash is a Telegram bot that drills English phrasal verbs. This project models the
two handlers in `main.py` that hold its logic, with the chat transport taken out:

- **`/flash`** (`show_random_phrasal_verb`). It takes the records fetched from the data
  store. An empty store gets the fixed reply `Нет фразовых глаголов в базе данных.` and the
  session is left alone. Otherwise the handler picks one record and replies with an HTML
  prompt: the verb, then the comma-separated particle names. It stores the record's
  `phr_verbs` list in the user's session under `particles`, replacing what was there.
- **"Показать ответ"** (`display_answer`). It reads `particles` from the session, or an
  empty list when the key is missing. It renders one block per detail, in order:
  `<b>verb</b> - translation`, a blank line, the example sentence with every
  non-overlapping occurrence of the detail's verb, leftmost first, in bold, and a blank line.

The project has two modules:

- `Text` (`text.dfy`) holds the two Python string operations the handlers use, with
  their Python meaning: `sep.join` and `str.replace`. It also defines `str.count` and
  `str.split`, which the handlers do not call. They serve only to state what `replace`
  does. `str.replace` is modelled for every pattern. That includes an empty one, where
  Python inserts the replacement before every character and at the end. So a detail
  whose verb is empty needs no precondition.
- `Flashcards` (`flashcards.dfy`) holds the data model (`ParticleDetail`,
  `PhrasalVerbRecord`), the prompt and answer renderers (`Prompt`, `Block`, `Answer`), and
  the per-user session. The session is a class `UserData` whose `entries` map the handler
  updates in place. The random pick is a nondeterministic choice. Its only contract is
  that the chosen record is one of the fetched ones.

The prompt carries the `<b>` tags the code writes (`main.py:57-58`); `GiveUpPrompt` shows
them.

## Model

| member | source | states |
|---|---|---|
| `Flashcards.UserData.ShowRandomPhrasalVerb` | main.py:47-61 | An empty fetch replies exactly `Нет фразовых глаголов в базе данных.` and leaves the session unchanged. A non-empty fetch replies with a record that is in the fetched list, and the reply text is that record's prompt. The session becomes the old one with `particles` set to that record's `phr_verbs`, so other keys are kept and an earlier value is overwritten. A reveal afterwards renders exactly that list. |
| `Flashcards.UserData.constructor` | main.py:81 | A user's session starts with no entries, so before any `/flash` the `particles` key is missing and `get` falls back to its default. |
| `Flashcards.UserData.StoredParticles` | main.py:81 | `user_data.get('particles', [])`: the stored list, or the empty list when the key is missing. `DisplayAnswer` and `ShowRandomPhrasalVerb` state what a reveal renders from it. |
| `Flashcards.UserData.DisplayAnswer` | main.py:81-86 | The answer is the empty string exactly when `particles` is missing or holds an empty list. A missing key is not an error. |
| `Flashcards.ParticleNames` | main.py:58 | The generator `particle['particle'] for particle in particles`: the particle names in record order. Its body is that generator. `PromptNamesEachParticle` and `PromptParticlesInOrder` state what it contributes to the prompt. |
| `Flashcards.Prompt` | main.py:56-59 | The two-line f-string: its body is that f-string, with `Join` for `', '.join`. Its properties are stated in `PromptWithoutParticles`, `PromptNamesEachParticle`, `PromptParticlesInOrder` and `GiveUpPrompt`. |
| `Flashcards.Bold` | main.py:83-84 | The f-string `<b>{verb}</b>`, used both for the block heading and as the replacement. It adds seven characters, which `RenderedExampleLength` uses. |
| `Flashcards.RenderedExample` | main.py:84 | `example.replace(verb, f'<b>{verb}</b>')`, by `Text.ReplaceAll`. Its properties are stated in `ExampleWithoutVerbUnchanged`, `RenderedExampleLength`, `RenderedExampleIsJoin` and `GiveUpRenderedExample`. |
| `Flashcards.Block` | main.py:83-84 | The f-string for one detail: bold verb, ` - `, translation, blank line, rendered example, blank line. Its length is counted in `AnswerLength`, and `GiveUpAnswer` shows one block exactly. |
| `Flashcards.Answer` | main.py:82-86 | `''.join` of the blocks, in detail order, written as a recursion over the list. Its properties are stated in `AnswerAppend`, `AnswerEmptyIff`, `AnswerAt` and `AnswerLength`. |
| `Flashcards.PromptWithoutParticles` | main.py:56-59 | A record with no particles gets the prompt with an empty particle list. |
| `Flashcards.PromptNamesEachParticle` | main.py:58 | Every particle name of the chosen record occurs in the prompt. |
| `Flashcards.PromptParticlesInOrder` | main.py:58 | The particle list in the prompt splits at the `", "` placed before name `i` into the joined names before `i` and the joined names from `i` on, so the names keep the record's order. |
| `Flashcards.GiveUpPrompt` | main.py:56-59 | For the verb `give up` with the one particle `up`, the prompt is exactly `<b>Фразовый глагол:</b> give up\n<b>Применимые частицы:</b> up\n`. |
| `Flashcards.ExampleWithoutVerbUnchanged` | main.py:84 | An example sentence that does not contain the detail's verb is rendered unchanged. |
| `Flashcards.RenderedExampleLength` | main.py:84 | The rendered example is 7 characters longer per occurrence of the verb (Python's `count`) than the original example. |
| `Flashcards.RenderedExampleIsJoin` | main.py:84 | For a non-empty verb, the rendered example is the example's pieces between verb occurrences joined with the bold verb. Joining the same pieces with the plain verb gives back the original example. No piece contains the verb, so no occurrence is left between the emphasised ones. An occurrence that overlaps an emphasised one (verb `aa` in `aaa`) is not emphasised, as in Python; `OverlapNotEmphasised` shows it. |
| `Flashcards.GiveUpRenderedExample` | main.py:84 | `Don't give up now.` with verb `give up` renders as `Don't <b>give up</b> now.`. |
| `Flashcards.OverlapNotEmphasised` | main.py:84 | For verb `aa` and example `aaa`, the verb also occurs at index 1, yet the rendered example is `<b>aa</b>a`: Python's `replace` emphasises only the leftmost of two overlapping occurrences. |
| `Flashcards.GiveUpAnswer` | main.py:82-86 | The one-detail answer for `give up` / `сдаваться` is exactly `<b>give up</b> - сдаваться\n\nDon't <b>give up</b> now.\n\n`. |
| `Flashcards.AnswerAppend` | main.py:82-86 | The answer for two detail lists, one after the other, is the first answer followed by the second. |
| `Flashcards.AnswerEmptyIff` | main.py:81-86 | The answer is empty exactly when the detail list is empty. |
| `Flashcards.AnswerAt` | main.py:82-86 | Detail `i` contributes exactly its own block, built from its own `verb` field. The block sits between the answers for the details before it and after it. |
| `Flashcards.AnswerLength` | main.py:82-86 | The answer's length is the sum over the details of verb, translation and example lengths, plus 7 per emphasised occurrence, plus 14 fixed characters per block. |
| `Text.ReplaceAll` | main.py:84 | Python's `str.replace`: leftmost non-overlapping matches, scanning left to right, and for an empty pattern the replacement before every character and at the end. Its properties are stated in `ReplaceLength`, `ReplaceIsJoinOfSplit`, `ReplaceAbsent`, `ReplaceSelf`, `ReplaceAtStart`, `ReplaceSkipsPrefix` and `ReplaceSingle`. |
| `Text.ReplaceLength` | main.py:84 | `s.replace(pat, rep)` has length `len(s) + s.count(pat) * (len(rep) - len(pat))`, for every pattern including the empty one. |
| `Text.ReplaceAbsent` | main.py:84 | Replacing a pattern that does not occur returns the string unchanged. |
| `Text.CountZeroIff` | main.py:84 | `s.count(p)` is zero exactly when `p` does not occur in `s`. |
| `Text.ReplaceSelf` | main.py:84 | Replacing a pattern with itself is the identity. |
| `Text.ReplaceIsJoinOfSplit` | main.py:84 | For a non-empty pattern, `s.replace(pat, rep)` equals `rep.join(s.split(pat))`, the identity Python's two methods satisfy. |
| `Text.SplitPiecesFree` | main.py:84 | No piece of `s.split(sep)` contains `sep`, as stated with the scan-free `Contains`. Together with `ReplaceIsJoinOfSplit`, no occurrence of the pattern is left between the replacements; only one that overlaps a replaced occurrence stays. |
| `Text.JoinSplitRoundTrip` | main.py:84 | For a non-empty separator, `sep.join(s.split(sep))` is `s`. |
| `Text.SplitSize` | main.py:84 | `s.split(sep)` has `s.count(sep) + 1` pieces. |
| `Text.ReplaceSkipsPrefix` | main.py:84 | A prefix with no character that could start the pattern is copied through, and replacement goes on after it. |
| `Text.ReplaceAtStart` | main.py:84 | An occurrence at the start is replaced, and the scan resumes right after it, so matches do not overlap. |
| `Text.ReplaceSingle` | main.py:84 | A lone occurrence, with no other character that could start the pattern, is the only part replaced. |
| `Text.Join` | main.py:58 | Python's `sep.join(parts)`: the parts in order with `sep` between neighbours. Its properties are stated in `JoinContainsPart`, `JoinSplitAt`, `JoinLength` and `JoinSplitRoundTrip`. The `''.join` at main.py:82 is the concatenation in `Answer`. |
| `Text.JoinContainsPart` | main.py:58 | Every part of a join occurs in the joined string. |
| `Text.JoinSplitAt` | main.py:58 | A join splits at the separator placed before part `i` into the joins of the parts before `i` and from `i` on, in order. |
| `Text.JoinLength` | main.py:58 | A join's length is the sum of the part lengths plus one separator between each pair of neighbours. |

## Left out

- The Telegram transport is not modelled: `reply_text`, `edit_message_text`, `query.answer`, the inline keyboard and its second message `Показать ответ?`, `ApplicationBuilder`, handler registration and `run_polling` (main.py:28, 62-66, 78-79, 88, 90-97). The model returns the reply text instead of sending it.
- `database.get_phrasal_verbs` is not part of this model. Its result is the `phrasalVerbs` parameter.
- Loading the token through `dotenv` / `os.getenv` (main.py:9-10) is configuration I/O and is left out.
- The `/start` greeting (main.py:21-28) is a constant reply with no logic.
- `Flashcards.UserData.ShowRandomPhrasalVerb`: the choice is only known to be a member of the list. The uniform distribution of `random.choice` cannot be stated for a single call.
- `Flashcards.UserData`: the session maps keys to detail lists only. Telegram's `user_data` can hold any value, but this code only ever stores detail lists.
- Concurrent updates from different users are not modelled, and neither are interleaved flash and reveal events. The code does no synchronisation.
- Records are taken as well-formed: every key is present and every field is a string. The source indexes dicts (main.py:53-54, 58, 83-84), so a missing key would raise `KeyError`, and a non-string `particle` or `verb` would make `join` or `replace` raise `TypeError`. These exceptions are not modelled. Neither is a `None` result from the store, which `if not phrasal_verbs` (main.py:48) treats like an empty list.
- `main.py:84` nests an f-string that reuses the outer quote character, which Python parses only from version 3.12 on. Earlier versions fail to import the module. The model assumes Python 3.12 or later.
- HTML is neither escaped nor interpreted. Strings are plain sequences of code points, as in Python.
