# Verified model of the local logic of a retrieval-augmented code generator

The repository converts a codebase to text files, chunks and embeds them,
retrieves chunks for a query and asks a language model for code. Almost all
of that is done by LangChain, HuggingFace and Qdrant. This project models
the logic the repository itself implements, and proves what it promises:

- `Chunk.convert_files_to_txt` (module `ChunkConvert`): the walk over the
  source listing, the case-insensitive `.jpg` filter, the output path
  (the last suffix replaced by `.txt`), skipping on a decode failure,
  carrying on after a write failure, and the resulting destination tree.
  The walk is a method with a loop, proved equal to a specification
  function. Lemmas over that function state which files exist afterwards
  and what each holds, which directories exist, and that a second run
  changes nothing.
- `Chunk.generate_metadata` (module `ChunkDocuments`): an in-place pass over
  `Document` objects (a class whose `metadata` field is reassigned). When
  `source` ends in `.txt`, every non-overlapping occurrence of `.txt` is
  deleted, as `str.replace` does. The module proves when a second pass
  changes nothing, and gives an input on which it does.
- `Chunk.print_n_documents` (module `ChunkDocuments`): which documents are
  shown for a given `n`, including Python's negative-slice case for `n < -1`.
- `Prompter` (module `Prompt`): the fixed template with its two slots, and
  the clean-up of the model's answer in `generate_response`.
- `PyStr` and `PyPath` hold the Python library behaviour these rely on:
  `str.endswith`, `str.replace(pat, "")`, `str.strip`, `str.lower`,
  `PurePath.suffix` and `PurePath.with_suffix`.

External effects become inputs. The source listing is a sequence of `Entry`
values. Each entry carries the outcome of `read_text` (`None` for a
`UnicodeDecodeError`) and of `write_text` (`writeOk`). The destination is a
`Tree` value of directories and a file map, which the converter returns
updated. The language model is a function parameter of
`GenerateResponse`, and its answer is an `Option<string>`.

Where the code's own comments and the code disagree, the model follows the
code:
- The docstring of `generate_metadata` (src/chunk.py:76) says it removes
  "the `.txt` extension" from source paths. The code (src/chunk.py:80-81)
  deletes every occurrence of `.txt` once the value ends in `.txt`. So
  `d.txt/a.txt` becomes `d/a`, and `.t.txtxt.txt` becomes `.txt`, which a
  second pass turns into `""`. `ChunkDocuments.NormalizeTwiceIff` states
  exactly when a second pass changes nothing.
- `convert_files_to_txt` creates the output file's parent directory
  (src/chunk.py:38) before it reads the file (src/chunk.py:42). A file that
  fails to decode therefore leaves no file but does leave its parent
  directory, and `ChunkConvert.ConvertedDirs` includes it.

## Model

| member | source | states |
|---|---|---|
| `ChunkConvert.ConvertFilesToTxt` | src/chunk.py:20-51 | the loop (destination created, non-files and `.jpg` skipped, parent directory created, undecodable file skipped, failed write ignored) leaves exactly the tree `Converted` describes |
| `ChunkConvert.ConvertedFiles` | src/chunk.py:32-49 | the destination files afterwards are the earlier ones plus the output path of every entry that was visited, decoded and written; no other file appears |
| `ChunkConvert.ConvertedContent` | src/chunk.py:41-49 | a converted file holds exactly the decoded text of the last entry mapped to its path, so a later file overwrites an earlier one with the same output path |
| `ChunkConvert.SkippedEntryLeavesNoFile` | src/chunk.py:33-51 | a directory, a `.jpg`, a file that fails to decode or one whose write fails leaves no file at its output path unless another entry writes there or a file already existed |
| `ChunkConvert.ConvertedDirs` | src/chunk.py:29-38 | the directories afterwards are the destination with its ancestors and the parent of every visited entry with its ancestors, including entries that then fail to decode |
| `ChunkConvert.ConvertIdempotent` | src/chunk.py:32-51 | running the conversion again over the same listing leaves the tree unchanged |
| `ChunkConvert.WalkFileKeys` | src/chunk.py:32-49 | during the walk the file set grows by exactly the written output paths |
| `ChunkConvert.WalkUntouched` | src/chunk.py:32-51 | a path no entry writes keeps its presence and content through the walk |
| `ChunkConvert.WalkLastWriteWins` | src/chunk.py:41-49 | the last writer of a path decides its content whatever fails before or after it |
| `ChunkConvert.WalkDirs` | src/chunk.py:32-38 | during the walk the directory set grows by the ancestors of each visited entry's parent |
| `ChunkConvert.OutPath` | src/chunk.py:34-35 | the output path is the destination, then the entry's directory relative to the source, then exactly one more component (what that component is: `OutPathName`) |
| `ChunkConvert.OutPathName` | src/chunk.py:34-35 | the output file's name has suffix `.txt` and the stem of the entry's name: the last suffix replaced by `.txt`, or `.txt` appended when there is none |
| `ChunkConvert.MkDirs` | src/chunk.py:29 | `mkdir(parents=True, exist_ok=True)` adds the path and its ancestors to the directories and leaves the files alone |
| `ChunkConvert.AncestorsArePrefixes` | src/chunk.py:29 | the directories `mkdir(parents=True)` creates are exactly the non-empty prefixes of the path |
| `ChunkConvert.LastWriter` | src/chunk.py:32-49 | every written path has a last entry that writes it |
| `ChunkConvert.JpgUpperCaseExcluded` | src/chunk.py:33 | `x.JPG` is excluded |
| `ChunkConvert.JpgDotfileConverted` | src/chunk.py:33-35 | the dotfile `.jpg` has no suffix, is not excluded and becomes `.jpg.txt` |
| `ChunkConvert.JpegAndPngConverted` | src/chunk.py:33 | `.jpeg` and `.png` files are not excluded |
| `ChunkConvert.OutNameExamples` | src/chunk.py:35 | `a.tar.gz` becomes `a.tar.txt`, `Makefile` becomes `Makefile.txt`, and `a.py` and `a.js` both become `a.txt` |
| `PyPath.LastDot` | src/chunk.py:33 | the index found is a dot with no dot after it, or -1 when there is none |
| `PyPath.Suffix` | src/chunk.py:33 | a non-empty suffix ends the name, starts with its only dot, has a character after the dot and is preceded by at least one character |
| `PyPath.SuffixPresentIff` | src/chunk.py:33 | a name has a suffix exactly when it does not end with a dot and has a dot after its first character |
| `PyPath.Stem` | src/chunk.py:35 | a name is its stem followed by its suffix, and a non-empty name has a non-empty stem |
| `PyPath.WithSuffix` | src/chunk.py:35 | the new name ends with the suffix given |
| `PyPath.WithSuffixRoundTrip` | src/chunk.py:35 | after `with_suffix(".txt")` the suffix reads back as `.txt` and the stem is unchanged |
| `PyPath.WithSuffixIdempotent` | src/chunk.py:35 | replacing the suffix twice equals replacing it once |
| `PyPath.IsJpgShape` | src/chunk.py:33 | a name is excluded exactly when it is longer than four characters and ends in a dot followed by `j`, `p`, `g` in either case |
| `PyStr.Lower` | src/chunk.py:33 | lower-casing keeps the length and folds each ASCII capital |
| `PyStr.RemoveAll` | src/chunk.py:81 | deleting a pattern never makes a string longer |
| `PyStr.RemoveAllAbsent` | src/chunk.py:81 | deleting a pattern that does not occur changes nothing |
| `PyStr.RemoveAllShrinks` | src/chunk.py:81 | deleting a pattern that occurs makes the string strictly shorter |
| `PyStr.RemoveAllUnchangedIff` | src/chunk.py:81 | `replace(".txt", "")` returns its input exactly when `.txt` does not occur in it |
| `PyStr.EndsWithContains` | src/chunk.py:80-81 | a string ending in `.txt` contains `.txt` |
| `ChunkDocuments.GenerateMetadata` | src/chunk.py:74-83 | the same list is returned; page contents are unchanged; each document's metadata is rewritten once per occurrence in the list, so exactly once when no document repeats |
| `ChunkDocuments.RewriteSource` | src/chunk.py:79-81 | one loop iteration rewrites the document's metadata by the rule and leaves its text alone |
| `ChunkDocuments.NormalizeSource` | src/chunk.py:79-81 | the rewrite keeps the same keys (no `source` is added) and every key other than `source` keeps its value |
| `ChunkDocuments.NormalizeTimes` | src/chunk.py:78-81 | applying the rewrite any number of times adds no key and leaves every key other than `source` unchanged |
| `ChunkDocuments.NormalizeSourceValue` | src/chunk.py:80-81 | a `source` ending in `.txt` has every `.txt` deleted, and otherwise the metadata is unchanged; the rewrite changes something exactly when `source` ends in `.txt` |
| `ChunkDocuments.NormalizeTwiceIff` | src/chunk.py:80-81 | a second rewrite changes nothing exactly when the first result's `source` does not end in `.txt` |
| `ChunkDocuments.DeletesEveryOccurrence` | src/chunk.py:81 | `d.txt/a.txt` becomes `d/a`: inner occurrences go too |
| `ChunkDocuments.NotIdempotentExample` | src/chunk.py:80-81 | `.t.txtxt.txt` becomes `.txt`, and a second pass turns that into `""` |
| `ChunkDocuments.DistinctOccursOnce` | src/chunk.py:78 | a list without repeated documents visits each document once |
| `ChunkDocuments.SliceTo` | src/chunk.py:92 | `s[:k]` is a prefix of `s`, `min(k, len)` long for `k >= 0` and `max(0, len + k)` long for negative `k` |
| `ChunkDocuments.SelectedDocuments` | src/chunk.py:89-92 | `n == -1` selects all documents, `n >= 0` the first `min(n, len)`, and `n < -1` all but the last `-n` (none when `-n >= len`) |
| `ChunkDocuments.AnnouncedCount` | src/chunk.py:89-90 | the announced count equals the number shown for `n >= -1`, and is negative for `n < -1` |
| `PyStr.LeadingSpaces` | src/prompt.py:53 | the counted prefix is whitespace and the character after it is not |
| `PyStr.TrailingSpaces` | src/prompt.py:53 | the counted suffix is whitespace and the character before it is not |
| `PyStr.Strip` | src/prompt.py:53 | `strip()` returns an infix of its input with only whitespace around it, which neither starts nor ends with whitespace |
| `PyStr.StripIdempotent` | src/prompt.py:53 | stripping a stripped string changes nothing |
| `PyStr.StripEmptyIff` | src/prompt.py:53 | `strip()` gives `""` exactly for whitespace-only input |
| `Prompt.SlotNames` | src/prompt.py:17-37 | the slot list names exactly the slots that occur in the template |
| `Prompt.TemplateSlots` | src/prompt.py:18-34 | the template's slots are `question` then `context`, each once, and as a set they equal the declared input variables |
| `Prompt.RenderAppend` | src/prompt.py:23-37 | filling in a template is done segment by segment: two templates side by side render to their two renderings side by side |
| `Prompt.RenderedPrompt` | src/prompt.py:24-37 | the rendered prompt is the instructions, then the question, the context heading, the context and the output heading |
| `Prompt.QuestionPrecedesContext` | src/prompt.py:30-34 | the question appears whole in the prompt before the context, which also appears whole |
| `Prompt.CleanResponse` | src/prompt.py:53 | an absent or empty answer gives the placeholder; any other answer gives its stripped form, which is `""` exactly when the answer is whitespace only |
| `Prompt.GenerateResponse` | src/prompt.py:44-55 | the model is asked with the rendered prompt; no answer or an empty one gives the placeholder; any other answer gives the infix left after removing its leading and trailing whitespace, which neither starts nor ends with whitespace and is `""` exactly when the answer is whitespace only |
| `Prompt.WhitespaceOnlyIsEmpty` | src/prompt.py:53 | a whitespace-only answer gives `""`, not the placeholder |
| `Prompt.CleanIdempotent` | src/prompt.py:53 | cleaning a non-empty cleaned result again returns it unchanged |

## Left out

- `Chunk.chunk_txt_files` (src/chunk.py:53-72): loading and splitting are done by LangChain's `DirectoryLoader` and `RecursiveCharacterTextSplitter`, so the chunk-size and overlap guarantees are that library's.
- `src/embed_model.py` and `src/llm_model.py`: embedding, vector indexing and search, and model loading are HuggingFace and Qdrant calls over floating-point data.
- `main.py`: orchestration, environment, hub login, network and inference. Its `metadata` list shares the dictionaries that `generate_metadata` later mutates; that sharing is not modelled.
- Filesystem effects and all `print` output. The order of `rglob` is whatever order the input listing has.
- `ChunkConvert.ConvertFilesToTxt`: an error that the source does not catch ends the Python run, and this is not modelled. Such errors are a `mkdir` failure, a read error other than `UnicodeDecodeError`, and an error raised from the listing itself.
- `ChunkConvert.ConvertFilesToTxt`: a write that raises `IOError` leaves the destination file as it was. A partly written file is not modelled.
- Newline translation: an entry's `decoded` text is what `read_text` returns, that is after universal-newline translation (`\r\n` and `\r` become `\n`). The translation itself is not modelled.
- `ChunkConvert.ConvertedContent`: the file holds the decoded text as given. `write_text` turns each `\n` into `os.linesep` on the way out, and this is not modelled; on POSIX systems it changes nothing.
- `ChunkConvert.Tree`: one path may be both a directory and a file, and `writeOk` is not tied to the tree. Writing onto a path that is a directory raises `IsADirectoryError`, an `OSError` the handler at src/chunk.py:50 catches; in the model the entry's `writeOk` decides that outcome.
- `ChunkConvert.Ancestors`: path components are opaque strings. `..`, `.` and symbolic links are not resolved.
- `ChunkDocuments.GenerateMetadata`: metadata values are strings. A non-string `source` value, which would make `endswith` raise, is not modelled. Two documents sharing one metadata dictionary are not modelled either.
- `PyStr.Lower`: only ASCII letters are folded. For the `.jpg` comparison this is exact, because no other character lower-cases to `.`, `j`, `p` or `g`.
- `PyStr.RemoveAll`: only a non-empty pattern is modelled. The source only deletes `.txt`.
- `PyPath.Suffix`: follows the rule of CPython 3.8 to 3.13 that a final component whose last dot is its first or last character has no suffix; later versions treat a trailing dot differently. `PyPath.WithSuffix` is only given the valid suffix `.txt`, so its `ValueError` cases are not modelled.
- `Prompt.Template`: the template text is written already split into text and slots, so LangChain's f-string parser is not modelled. The chat-message wrapping and `chain.invoke` are not modelled either, and the model is a parameter.
- `Prompt.CleanResponse`: the model's answer is either absent or a string. Other falsy Python values are not modelled.
