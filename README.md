# Telugu Heritage Collector: verified model of its logic

The Telugu Heritage Collector is a small web app. Users contribute
artifacts and ask a canned "heritage guide" questions. This project models
the two pieces of real logic in `app.py`.

- **The heritage guide** (`generate_ai_response`), in module `Guide`
  (`guide.dfy`). The question is lower-cased. The app then walks the
  ordered table of keys `history`, `temples`, `culture`, `language` and
  `default`. It answers with the text of the first key that occurs as a
  substring of the lowered question. When no key occurs, it answers with
  the `default` text.
  - `Respond` is the recursive specification of the loop over any ordered table.
  - `Answer` applies `Respond` to the app's fixed table.
  - `GenerateAiResponse` is the loop itself, with an early return, proved equal to `Answer`.
  - Python's `str.lower` is modelled as ASCII case folding (`Lower`).
  - Python's `key in query` is modelled as a left-to-right scan (`Contains`). It is proved equal to "occurs at some index".
- **The contribution store** (`save_artifact` and the Explore tab's
  `contributions[-3:]`), in module `Contributions` (`contributions.dfy`).
  - The class `Store` holds the session list `contributions` as a `seq` of `Artifact` records.
  - `SaveArtifact` appends the record that `MakeArtifact` builds and returns it.
  - Absent detail keys take `"Untitled"`, `""`, `"Unknown"` and `"Anonymous"`.
  - The record's `"type"` entry is the field `kind`, because `type` is a Dafny keyword.
  - `RecentOf` is Python's slice `s[-3:]`, written out through `SliceFrom`, the model of `s[start:]` for an integer start that may be negative.
  - `Explore` is the tab's choice between the "no contributions" notice and the recent list.
  - `SubmitArtifactForm` is the form's guard: it saves only when the form was submitted with a file.

Inputs that the app reads from its environment become parameters:
- the upload becomes its file name;
- the date `datetime.now().strftime("%Y-%m-%d")` becomes a `date` string passed in;
- "a file was uploaded" becomes an `Option<string>`.

## Model

| member | source | states |
|---|---|---|
| `Guide.ToLowerChar` | app.py:51 | the folded character is never an upper-case ASCII letter; an upper-case letter moves 32 code points down to its lower-case form; every other character is unchanged |
| `Guide.Lower` | app.py:51 | `query.lower()` on ASCII: same length, each character folded on its own |
| `Guide.LowerIdempotent` | app.py:51 | a lowered string has no upper-case letter, and lowering it again changes nothing |
| `Guide.LowerOfLowercase` | app.py:51 | a string with no upper-case letter is its own lower-case form |
| `Guide.Contains` | app.py:53 | `key in query`: the left-to-right scan holds exactly when the key occurs at some index of the query |
| `Guide.ShiftOccurrence` | app.py:53 | when the key does not match at the first position, it occurs in the query exactly when it occurs in the query without its first character |
| `Guide.MissingCharNotContained` | app.py:53 | a key containing a character the query lacks does not occur in it |
| `Guide.KnowledgeOrder` | app.py:43-49 | `telugu_knowledge` has five entries whose keys, in iteration order, are history, temples, culture, language and default; the last text is the default text, and the five texts are pairwise distinct |
| `Guide.Texts` | app.py:43-49 | lists the texts of a table, entry by entry, in table order |
| `Guide.Respond` | app.py:52-55 | the ordered walk with early return over any table answers with one of the table's texts or the fallback |
| `Guide.Answer` | app.py:41-55 | `generate_ai_response` on the lowered query always answers with one of the five fixed texts |
| `Guide.GenerateAiResponse` | app.py:41-55 | the loop (lower-case the query, try the keys in order, return on the first hit, else the default text) returns exactly `Answer(query)` |
| `Guide.RespondFirstMatch` | app.py:52-54 | if entry i's key occurs and no earlier key occurs, entry i's text is the answer |
| `Guide.RespondNoMatch` | app.py:55 | if no key of the table occurs, the fallback is the answer |
| `Guide.RespondCases` | app.py:52-55 | either no key occurs, or some entry is the first whose key occurs and its text is the answer |
| `Guide.AnswerIgnoresCase` | app.py:51 | two questions equal up to ASCII case get the same answer |
| `Guide.AnswerOfLower` | app.py:51 | asking the lower-cased question gives the same answer as the original |
| `Guide.AnswerIsKeyText` | app.py:52-54 | for history, temples, culture and language: that key's text is the answer if and only if the key occurs in the lowered question and no earlier key does |
| `Guide.AnswerIsDefault` | app.py:48-55 | the default text is the answer if and only if none of history, temples, culture and language occurs in the lowered question |
| `Guide.AnswerFallback` | app.py:55 | when no key occurs in the lowered question, the default text is the answer |
| `Guide.HistoryBeforeTemples` | app.py:52-54 | "History of TEMPLES" gets the history text: the earlier key wins, whatever the case |
| `Guide.NoKeyWithout` | app.py:43-53 | no key of the table occurs in a query lacking each of the letters y, s, c, n and d |
| `Guide.SingularTempleGetsDefault` | app.py:45-55 | "Tell me about the temple" contains "temple" yet gets the default text: only the whole key `temples` matches |
| `Contributions.GetOr` | app.py:32-36 | `details.get(key, fallback)`: the stored value when the key is present, else the fallback |
| `Contributions.MakeArtifact` | app.py:29-37 | the record has type "artifact", the upload's name as file, the given date, and each of title, description, region and user set from the details or, when absent, from its default |
| `Contributions.DefaultsWhenAbsent` | app.py:30-36 | with no details, the record is ("artifact", name, "Untitled", "", "Unknown", date, "Anonymous") |
| `Contributions.SuppliedValuesKept` | app.py:32-36 | supplied title, description, region and user are copied through unchanged, empty strings included |
| `Contributions.FormDetails` | app.py:90-95 | the form passes exactly the keys title, description, region and user, with the form's title, description and region and the user "User" |
| `Contributions.FormValuesKept` | app.py:88-96 | a form submission records the form's three values unchanged (even when empty) and the user "User" |
| `Contributions.SliceFrom` | app.py:121 | Python's `s[start:]`: the suffix of `s` of length min(-start, n) for a negative start and max(n - start, 0) otherwise |
| `Contributions.RecentOf` | app.py:121 | `contributions[-3:]` is the last min(3, n) records in insertion order, and is empty exactly when the list is |
| `Contributions.RecentAfterAppend` | app.py:119-121 | after an append the recent view is the old recent view plus the new record, cut to the last three; its last element is the new record |
| `Contributions.Explore` | app.py:119-126 | the "no contributions" notice is shown exactly when the list is empty; otherwise exactly the last min(3, n) records are listed, in insertion order |
| `Contributions.Store.constructor` | app.py:13-14 | the session starts with an empty contribution list |
| `Contributions.Store.SaveArtifact` | app.py:27-39 | the list grows by exactly one record, the earlier records are unchanged, and the returned record is the one built from the inputs, now the last element |
| `Contributions.Store.SubmitArtifactForm` | app.py:87-96 | a record is saved if and only if the form was submitted with a file; the saved record carries the form's values and user "User" and is appended; otherwise the list is unchanged |
| `Contributions.Store.Recent` | app.py:121 | the records the Explore tab lists: the last min(3, n) of the n saved |

## Left out

- All Streamlit rendering: page configuration, tabs, radio buttons, forms, file uploader, messages, image display, expanders and the follow-up "temples" button (app.py:6-10, 61-86, 97-118, 122-131). These are user interface, not logic. Inside `main`, the form's save guard (app.py:87-96, `SubmitArtifactForm`) and the Explore tab's choice and slice (app.py:119-121, `Explore` and `RecentOf`) are modelled.
- Record identity: `save_artifact` appends and returns the same dictionary object (app.py:38-39), so a later change through either reference would show in both. The model returns a record value. Nothing in app.py changes a record after it is saved, so no behaviour is lost.
- The PIL `Image` import and image display: calls into a foreign library.
- The clock read `datetime.datetime.now().strftime("%Y-%m-%d")` (app.py:35). The date is an input string instead.
- The upload object: only its `name` is used.
- The unused `TELUGU_HERITAGE_DATA` dictionary (app.py:17-21). Nothing reads or writes it.
- How session state is initialised and persists across reruns (app.py:13-14). The model starts from an empty list in one `Store`.
- Guide.Lower: models only ASCII case folding, not Python's full Unicode `str.lower`. Non-ASCII characters are left unchanged.
- Details values: Python accepts any value in the details dictionary. The model takes strings only, which is what the app's one caller passes.
- The second layout draft of the app (sidebar instead of tabs) is not part of this model.
