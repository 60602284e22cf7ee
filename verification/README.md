# CYNOTE core in Dafny

CYNOTE is an offline study assistant. It ingests PDF lecture notes into a vector
index and answers exam questions from them. This project models its two pieces
of plain sequential logic, and proves properties about them:

- **The page normaliser `clean_text`** (module `Normalizer`). It splits a page
  on newlines, strips each line, and drops lines shorter than five characters.
  It also drops any line whose lower-case form was already kept, so the first
  occurrence wins and keeps its casing. What is left is joined with one space.
- **The "Ask" handler after retrieval** (module `Ask`, with the chunk records
  in `Retrieved`). It covers:
  - the blank-question guard;
  - the dispatch between the topic branch and the generative branch;
  - the token budget;
  - context and prompt assembly;
  - the metadata fallbacks for `source` and `page`;
  - the per-topic excerpt filter;
  - the de-duplicated source list.

The vector store and the text-generation model are external. They appear as
function parameters: `search(query, k)` returns the retrieved chunks, and
`generate(prompt, maxNewTokens)` returns the answer text. `Ask.Handle` returns
what one press of "Ask" shows, together with the sequence of calls it makes into
those services. That trace is how "a blank question loads nothing" is stated.

The same "skip if unwanted, skip if the key was seen, else remember the key and
keep the item" loop appears three times in the source:
- the lines of `clean_text`;
- the excerpts of one topic;
- the source list.

`FirstSeen.KeepFirst` models that loop once. It is related to an independent
reference description, `FirstSeen.FirstWanted` ("the first wanted occurrence of
each key"). Python's `str` operations are in `Text`:
- `isspace` is the exact set of 29 code points;
- `strip`, `split` on one character and `sep.join` are modelled directly;
- `lower` covers ASCII only;
- the `in` substring test and the decimal rendering of an `int` are modelled too.

## Model

| member | source | states |
|---|---|---|
| Normalizer.IsLongLine | agentic-rag/ingest.py:26-28 | a stripped line is dropped as junk exactly when it is shorter than 5 characters |
| Normalizer.StrippedLines | agentic-rag/ingest.py:19-24 | splitting on newlines gives at least one line, and every line after `strip()` has no surrounding whitespace and no newline |
| Normalizer.KeptLines | agentic-rag/ingest.py:23-36 | every kept line is at least 5 long, stripped and newline-free; no two kept lines are equal under `lower()`; the lower-case forms kept are exactly those of the long stripped lines |
| Normalizer.CleanText | agentic-rag/ingest.py:15-38 | the result has no newline and no leading or trailing whitespace; it is empty or at least 5 long; it is empty exactly when no line is kept |
| Normalizer.CleanTextByLoop | agentic-rag/ingest.py:19-38 | the loop as written, with its `seen` set and `cleaned_lines` list, returns `CleanText` |
| Normalizer.KeptLinesAreFirstOccurrences | agentic-rag/ingest.py:30-36 | the kept lines are exactly the first long occurrence of each lower-case form, in input order |
| Normalizer.KeptLinesInOrder | agentic-rag/ingest.py:23-36 | the kept lines are an order-preserving subsequence of the stripped input lines, with their original casing, because `line` is appended and not `lower` |
| Normalizer.KeptLinesComplete | agentic-rag/ingest.py:27-36 | every stripped input line of length 5 or more has a kept line with the same lower-case form |
| Normalizer.CleanTextEmptyIff | agentic-rag/ingest.py:23-38 | a page cleans to `""` exactly when every stripped line is shorter than 5 |
| Normalizer.CleanTextOfEmpty | agentic-rag/ingest.py:19-38 | the empty page cleans to `""` |
| Normalizer.CleanTextOfOneLine | agentic-rag/ingest.py:19-38 | a single stripped line of length 5 or more cleans to itself |
| Normalizer.CleanTextIdempotent | agentic-rag/ingest.py:15-38 | `clean_text(clean_text(t)) == clean_text(t)` |
| Normalizer.CleanTextKeepsRepeatedSentence | agentic-rag/ingest.py:30-36 | de-duplication is per line: a one-line page that repeats a sentence is returned unchanged, casing included |
| Normalizer.CleanTextOfJunk | agentic-rag/ingest.py:26-28 | a page holding only `"X"` cleans to `""` |
| FirstSeen.KeepFirst | agentic-rag/ingest.py:20-36 | the first-seen loop keeps only wanted items with unseen keys and no two with the same key; the keys it keeps, with those seen before, are exactly the keys of the wanted items, with those seen before |
| FirstSeen.KeepFirstSnoc | agentic-rag/ingest.py:23-36 | one more item is appended exactly when it is wanted and its key is neither seen nor already kept |
| FirstSeen.KeepFirstPrefixStep | agentic-rag/ingest.py:23-36 | one loop iteration appends the item and adds its key to `seen` exactly when it is wanted and its key is new; otherwise nothing changes |
| FirstSeen.KeepFirstIsFirstWanted | agentic-rag/ingest.py:30-36 | the loop computes the reference list of first wanted occurrences |
| FirstSeen.KeepFirstMembers | agentic-rag/ingest.py:30-36 | an item is kept exactly when it is the first wanted occurrence of an unseen key |
| FirstSeen.KeepFirstIsSubseq | agentic-rag/ingest.py:23-36 | what the loop keeps is a subsequence of its input |
| FirstSeen.KeepFirstIdempotent | agentic-rag/ingest.py:23-36 | running the loop on its own output changes nothing |
| Text.IsSpace | agentic-rag/ingest.py:24 | the whitespace `strip()` removes, written as code-point ranges, is exactly the listed set of Python's 29 whitespace code points |
| Text.Strip | agentic-rag/ingest.py:24 | `strip()` gives a stripped string that is an infix of the input with only whitespace removed on either side, and leaves stripped strings alone |
| Text.TrimmedKeepsChars | agentic-rag/ingest.py:24 | stripping introduces no character, in particular no newline |
| Text.StripEmptyIffAllSpace | agentic-rag/app.py:159 | `s.strip() == ""` exactly when `s` is all whitespace |
| Text.Lower | agentic-rag/ingest.py:31 | `lower()` keeps the length and folds each character on its own |
| Text.Split | agentic-rag/ingest.py:19 | `split("\n")` gives at least one piece, and no piece holds the separator |
| Text.Join | agentic-rag/ingest.py:38 | `sep.join(parts)` is empty for no pieces and otherwise starts with the first piece |
| Text.JoinEndsWithLast | agentic-rag/ingest.py:38 | a join ends with its last piece |
| Text.JoinSplit | agentic-rag/ingest.py:19 | joining the pieces of a split with the separator gives back the original string |
| Text.SplitJoin | agentic-rag/ingest.py:19 | splitting a join of separator-free pieces gives back the pieces |
| Text.JoinAvoids | agentic-rag/ingest.py:38 | a join holds no character that neither the pieces nor the separator hold |
| Text.JoinStripped | agentic-rag/ingest.py:38 | joining non-empty stripped lines with one space gives a stripped string that is at least as long as the first line, and empty only for no lines |
| Text.Contains | agentic-rag/app.py:220 | the `in` test finds the empty pattern in every string; a found pattern is no longer than the string and uses only its characters |
| Text.ContainsInfix | agentic-rag/app.py:220 | a pattern placed between any prefix and suffix is found |
| Text.MissingFirstChar | agentic-rag/app.py:220 | a string lacking the first character of a pattern does not contain the pattern |
| Text.IntToString | agentic-rag/app.py:203 | the rendering of an integer page is non-empty and starts with `-` exactly for negatives |
| Text.NatToStringRoundTrip | agentic-rag/app.py:236 | the decimal rendering reads back as the number |
| Text.IntToStringInjective | agentic-rag/app.py:236 | distinct integer pages render differently |
| Retrieved.Render | agentic-rag/app.py:206 | an f-string shows a string value as it is and an integer value as non-empty decimal text that starts with `-` exactly for negatives |
| Retrieved.RenderIntInjective | agentic-rag/app.py:236 | two integer metadata values render to the same text only when they are equal |
| Retrieved.SourceOf | agentic-rag/app.py:202 | the displayed source is the `source` entry, or `"Unknown"` when it is missing |
| Retrieved.PageOf | agentic-rag/app.py:203 | the displayed page is `page_label` if present, else `page`, else `"N/A"` |
| Retrieved.CitationOf | agentic-rag/app.py:233-235 | the citation of a chunk holds its displayed source and its displayed page |
| Retrieved.CitationKey | agentic-rag/app.py:236 | the key is the source, one dash, then the page |
| Retrieved.Citations | agentic-rag/app.py:231-240 | the source list has at most one line per chunk and no two lines with the same `source-page` key, and it shows every key of a retrieved chunk |
| Retrieved.CitationListed | agentic-rag/app.py:231-240 | a citation is listed exactly when some chunk produces it and no earlier chunk produced the same key |
| Retrieved.CitationsInOrder | agentic-rag/app.py:232-240 | the source list is a subsequence of the chunks' citations, and it equals the list of first occurrences of each `source-page` key in retrieval order |
| Retrieved.CitationsIdempotent | agentic-rag/app.py:231-240 | de-duplicating the source list again changes nothing |
| Retrieved.CitationKeyInjective | agentic-rag/app.py:236 | when no source name holds a dash, equal keys mean equal (source, page) pairs |
| Retrieved.CitationKeyCollision | agentic-rag/app.py:236-239 | the distinct pairs ("a-b", "c") and ("a", "b-c") share a key, so only the first is listed |
| Retrieved.ExcerptOf | agentic-rag/app.py:193-203 | an excerpt shows the chunk text with only surrounding whitespace removed, and the displayed source and page |
| Retrieved.ExcerptKey | agentic-rag/app.py:196 | the de-duplication key of an excerpt is its text lower-cased character by character |
| Retrieved.IsLongExcerpt | agentic-rag/app.py:194 | an excerpt is skipped exactly when its stripped text is shorter than 50 characters |
| Retrieved.TopicExcerpts | agentic-rag/app.py:190-199 | every excerpt shown under a topic is at least 50 long; no two share a lower-case text; every lower-case form of a long chunk text is shown |
| Retrieved.ExcerptShown | agentic-rag/app.py:192-199 | an excerpt is shown exactly when some chunk yields it, it is long enough, and no earlier long chunk has the same lower-case text |
| Retrieved.TopicExcerptsInOrder | agentic-rag/app.py:192-207 | the excerpts are a subsequence of the chunks' excerpts, and they equal the list of first long excerpts of each lower-case text in retrieval order |
| Ask.IsBlank | agentic-rag/app.py:159 | a question is rejected exactly when it is all whitespace, the empty one included |
| Ask.BlankExamples | agentic-rag/app.py:159-161 | `""` and `"   "` are rejected |
| Ask.IsTopicMode | agentic-rag/app.py:178 | the topic branch is taken exactly for "Explain (10 Marks)" and "Build Topic Notes (Exam)" |
| Ask.ModeDispatch | agentic-rag/app.py:178-240 | for a non-blank question, the handler answers with generated text exactly for "Explain (2 Marks)", "Explain (5 Marks)" and "Show All Related Content", and shows topic notes exactly for "Explain (10 Marks)" and "Build Topic Notes (Exam)" |
| Ask.MaxNewTokens | agentic-rag/app.py:220 | the budget is 120 exactly when the mode contains "2 Marks", otherwise 250 |
| Ask.LongBudgetWithoutTwo | agentic-rag/app.py:220 | a mode without the digit 2 gets 250 |
| Ask.MaxNewTokensOfExplain2 | agentic-rag/app.py:220 | "Explain (2 Marks)" gets 120 |
| Ask.MaxNewTokensOfOtherModes | agentic-rag/app.py:220 | the other four radio options get 250 |
| Ask.ContextHead | agentic-rag/app.py:213 | the chunks reaching the prompt are a prefix of the retrieved ones: the first four, or all when there are fewer |
| Ask.Context | agentic-rag/app.py:213 | the context is empty for no chunks and otherwise starts with the first chunk's text |
| Ask.ContextIgnoresLaterDocs | agentic-rag/app.py:213 | chunks after the fourth never change the context |
| Ask.ContextOfFewDocs | agentic-rag/app.py:213 | with at most four chunks every chunk's text is used, in order |
| Ask.ContextOfNoDocs | agentic-rag/app.py:213 | with no chunk the context is empty |
| Text.JoinLength | agentic-rag/app.py:213 | a join is as long as its pieces plus one separator per gap |
| Ask.ContextLength | agentic-rag/app.py:213 | the context is the chunk texts plus exactly two characters per gap |
| Ask.Prompt | agentic-rag/app.py:223 | the prompt is the fixed template, with the context and the question inserted verbatim between the NOTES, QUESTION and ANSWER markers |
| Ask.PromptRoundTrip | agentic-rag/app.py:223 | reading a prompt back, given the context length, yields its context and question |
| Ask.ParsePromptSound | agentic-rag/app.py:223 | anything that reads back as a prompt is the prompt of what it reads back to |
| Ask.TopicSections | agentic-rag/app.py:181-207 | one section per topic in the fixed order; section i shows the excerpts of the k = 5 search for topic i, filtered with a fresh `seen`; each has long excerpts distinct under `lower()` |
| Ask.SeenResetPerTopic | agentic-rag/app.py:188-199 | `seen` restarts per topic: one long chunk returned for every topic is shown under every topic |
| Ask.Prelude | agentic-rag/app.py:163-173 | before either branch the handler makes three calls, none of them a generation, and the only search among them is the question itself with k = 6, made last |
| Ask.Handle | agentic-rag/app.py:157-240 | a blank question gets the warning and makes no call. Otherwise the embeddings and index are loaded and the question searched with k = 6 first. Topic modes show topic notes and never generate. Every other mode generates exactly once and lists the sources of the question's chunks |
| Ask.TopicRun | agentic-rag/app.py:178-207 | the topic branch starts with the shared prelude, makes no generation call and shows topic notes |
| Ask.AnswerRun | agentic-rag/app.py:212-240 | the generative branch starts with the shared prelude, generates exactly once and lists the de-duplicated sources |
| Ask.GenerateCallOfAnswer | agentic-rag/app.py:213-228 | in a generative mode, the trace is the prelude, the generator load and one generation call; that call receives the prompt built from the first chunks and the mode's budget, and its output is the answer shown |
| Ask.TopicSearches | agentic-rag/app.py:181-189 | in a topic mode each topic is searched once with k = 5, in order, after the question search |

## Behaviour worth knowing

- Excerpt de-duplication in the topic branch is per topic, because `seen` is
  reset inside the topic loop (`agentic-rag/app.py:190`). It is not across
  topics, so one excerpt can appear under several topics
  (`Ask.SeenResetPerTopic`).
- "Show All Related Content" takes the generative branch. Only
  "Explain (10 Marks)" and "Build Topic Notes (Exam)" take the topic branch
  (`agentic-rag/app.py:178`).
- The source list de-duplicates on the joined string `f"{source}-{page}"`, not
  on the pair (`agentic-rag/app.py:236`). Distinct pairs can therefore merge
  (`Retrieved.CitationKeyCollision`). They cannot when no source name holds a
  dash (`Retrieved.CitationKeyInjective`).
- `clean_text` de-duplicates whole lines and keeps the first occurrence's
  casing. A line that repeats a sentence is kept as it is, and the output is
  not lower-cased (`Normalizer.CleanTextKeepsRepeatedSentence`).
- The topic branch shows source and page next to each excerpt, but it builds
  no de-duplicated source list.
- The question search (k = 6) runs before the branch in both branches, and its
  result is unused in the topic branch.

## Left out

- Streamlit rendering: page styling, the sidebar, headings and the `st.*`
  output calls (`agentic-rag/app.py:11-152`). The model returns the items that
  would be rendered instead. The per-excerpt heading `topic.title()` is not
  modelled; each `Ask.Section` carries the raw topic string.
- PDF loading and directory scanning (`agentic-rag/ingest.py:41-65`). This is
  file-system I/O.
- Chunking with `RecursiveCharacterTextSplitter`
  (`agentic-rag/ingest.py:67-72`). It is a library call whose source is not
  part of this model.
- FAISS index building, saving, loading and `similarity_search`. These are an
  external library with floating-point distances. Retrieval is the `search`
  parameter.
- The HuggingFace embeddings and the flan-t5 `pipeline`. These are foreign
  models. Generation is the `generate` parameter, and only the trace records
  that they are loaded.
- `agentic-rag/query.py`: it repeats the same library calls and an f-string.
- Text.Lower: folds ASCII `A`-`Z` only. Python's `str.lower()` also folds
  other Unicode letters, and some of them to more than one character. The
  proofs need only that lowering is a function of the line.
- Retrieved.PageOf: metadata values are modelled as text or integers only.
  Other Python values, and their `str()` renderings, are not modelled.
- Retrieved.SourceOf: same restriction on metadata values as `PageOf`.
- Lone surrogates (U+D800 to U+DFFF): a Python `str` can hold them, but a
  Dafny `char` is a Unicode scalar value, so strings containing them are not
  representable.
- Exceptions raised by the external services (a missing index, a model that
  fails to load) are not modelled.
