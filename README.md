# CodePathik ingestion and response structuring, modelled in Dafny

CodePathik takes a GitHub repository URL, fetches the repository's metadata
and default-branch archive, builds a nested file tree of the extracted
folder, optionally fetches one file's decoded content, builds a prompt for a
language model and structures the model's reply into fixed fields. This
project models the logic of that pipeline and proves what it guarantees.

- `wrappers.dfy` (`Wrappers`): `Option` and `Result`.
- `py_str.dfy` (`PyStr`): the Python `str` operations the code relies on.
  These are `find`, `split` on one character, `strip(chars)`, `strip()` with
  CPython's `isspace` set, `in`, and `str()` of an integer.
- `py_value.dfy` (`PyValue`): JSON values as `.json()` returns them. It also
  models their `str()` rendering, their truthiness and `dict.get` with a
  default.
- `file_tree.dfy` (`FileTree`): `build_file_tree`.
  - `Build` is the specification.
  - `BuildFileTree` keeps the source's three nested loops and its cursor.
  - The Python `current` aliases a dict inside `tree`. Here the tree is a
    value and the cursor is the path from the root to the node it aliases.
  - Lemmas characterise the tree exactly. Every walked directory and its
    ancestors are mappings, every listed file is a `None` leaf, and nothing
    else is in the tree. Whatever order the walk yields its directories
    in, and whatever order each directory lists its files in, the trees
    built are equal as dicts.
- `llm_integration.dfy` (`LlmIntegration`): `extract_section`,
  `extract_list_items`, `parse_llm_response` and `build_analysis_prompt`.
- `repo_handler.dfy` (`RepoHandler`):
  - the GitHub URL match, with an exact characterisation of the greedy
    groups, and round trips for the URLs built from them;
  - the language tag and the metadata defaults;
  - `fetch_file_content` and `process_github_repo` as methods with one early
    return per failing step.
  - The network is a parameter mapping a URL to the outcome of
    `requests.get`. A ghost log records the requests issued and the creation
    and removal of the temporary directory.

Behaviour worth noting:

- The language tag of `fetch_file_content` is `file_path.split(".")[-1]`.
  - It is not lower-cased.
  - For a path without a `.` it is the whole path, not the empty string.
- The code fence in the file-level prompt is tagged with
  `repo_data['language']`, the repository's language, not with the file's
  extension tag.
- Defaults apply only when a key is absent. A `null` description stays
  `None`, and the prompt writes it as `None`.
- A failed repository-info request in `fetch_file_content` gives
  "Cannot fetch repo info" with no HTTP status.
- In `process_github_repo`, an exception raised by `requests.get` or `.json()`
  on the metadata request is not caught. Those two steps run before the
  `try` block.

## Model

| member | source | states |
|---|---|---|
| `PyStr.Find` | Backend/llm_integration.py:103 | `str.find` gives -1 or the lowest index at or after `start` where the pattern occurs, and there is no occurrence before it |
| `PyStr.FindNone` | Backend/llm_integration.py:103-105 | `find` gives -1 exactly when the title is not in the text |
| `PyStr.Split` | Backend/llm_integration.py:112 | `split` gives at least one piece and no piece holds the separator; the first piece is a prefix followed by the separator or the end |
| `PyStr.SplitJoin` | Backend/llm_integration.py:112 | joining the pieces of a split with the separator gives back the input |
| `PyStr.SplitPiecesOccur` | Backend/llm_integration.py:112 | every piece of a split is a contiguous substring of the input |
| `PyStr.SplitLast` | Backend/repo_handler.py:57 | the last piece is a suffix; it is either the whole input or follows a separator |
| `PyStr.LeftCut` | Backend/llm_integration.py:112 | where `lstrip` stops: every character before it is in the set, and the character at it is not |
| `PyStr.RightCut` | Backend/llm_integration.py:112 | where `rstrip` stops, never below the left cut: every character after it is in the set, and the one before it is not |
| `PyStr.Strip` | Backend/llm_integration.py:112 | a stripped string is the slice of the input that starts where `lstrip` stops |
| `PyStr.StripCuts` | Backend/llm_integration.py:112 | everything `strip` removes is in the set, and neither end of the result is |
| `PyStr.StripKeepsPrefix` | Backend/llm_integration.py:112 | `strip` never cuts into a prefix that neither starts nor ends with a stripped character |
| `PyStr.Decimal` | Backend/repo_handler.py:48 | `str(n)` of a natural number is a non-empty string of decimal digits |
| `PyStr.DecimalValue` | Backend/repo_handler.py:48 | `str(n)` denotes `n` when read back as a decimal number, and has no leading zero except for `"0"` |
| `FileTree.SetDefaultDirAt` | Backend/repo_handler.py:20 | `setdefault(part, {})` never replaces an existing entry; otherwise the only new path is the new empty mapping, and every other path keeps its kind |
| `FileTree.SetFileAt` | Backend/repo_handler.py:23 | `current[file] = None` makes that path a leaf and drops what was below it; every path outside that subtree keeps its kind |
| `FileTree.Descend` | Backend/repo_handler.py:15-20 | walking the parts (skipping `"."`) with `setdefault` leaves the cursor on a node that exists |
| `FileTree.AddFiles` | Backend/repo_handler.py:22-23 | `current[file] = None` for each file, raising when the cursor is a leaf; `AddFilesShape` gives the resulting shape |
| `FileTree.AddEntry` | Backend/repo_handler.py:13-23 | one pass of the outer loop: descend, then add the files |
| `FileTree.BuildFrom` | Backend/repo_handler.py:12-23 | the outer loop over the remaining walk; `BuildFromShape` gives the resulting shape |
| `FileTree.Build` | Backend/repo_handler.py:9-24 | what `build_file_tree` returns or raises; `BuildShape` and `BuildOrderIndependent` characterise it |
| `FileTree.BuildFileTree` | Backend/repo_handler.py:9-24 | the nested loops return exactly `Build(walk)`: the tree, or the exception CPython raises when the cursor is a `None` leaf |
| `FileTree.BuildShape` | Backend/repo_handler.py:12-23 | on a consistent walk the build succeeds, with a mapping at exactly the root, each walked directory and their ancestors, and a leaf at exactly each listed file |
| `FileTree.EveryListedFileIsLeaf` | Backend/repo_handler.py:17-23 | every walked directory is a mapping, even when empty, and each file listed for it is a `None` leaf under the path of its non-`"."` parts |
| `FileTree.RootFilesAreTopLevel` | Backend/repo_handler.py:13-23 | the root's files (parts `["."]`) are top-level leaves |
| `FileTree.BuildOrderIndependent` | Backend/repo_handler.py:12-23 | two walks that name the same directories and files build equal trees, whatever the order of the entries and of each entry's file names |
| `FileTree.SameEntriesSameListing` | Backend/repo_handler.py:12 | reordering or repeating the entries of the walk names the same directories and files |
| `FileTree.FileOrderIrrelevant` | Backend/repo_handler.py:22 | a directory listing its file names in another order, or with repetition, names the same files |
| `FileTree.TwoFileOrders` | Backend/repo_handler.py:22-23 | the root listing `a, b` and the root listing `b, a` build equal trees |
| `LlmIntegration.ExtractSection` | Backend/llm_integration.py:101-107 | `""` when the title is absent; otherwise the slice of the text from the title's first occurrence to the first blank line at or after it, or to the end |
| `LlmIntegration.SectionStartsWithTitle` | Backend/llm_integration.py:103-107 | a found section starts with its title when the title holds no blank line and does not end with a newline |
| `LlmIntegration.SectionHasNoBlankLine` | Backend/llm_integration.py:106-107 | a section never contains `"\n\n"` |
| `LlmIntegration.CleanItem` | Backend/llm_integration.py:112 | `line.strip("- ").strip()` has no whitespace at either end |
| `LlmIntegration.CleanItemOccurs` | Backend/llm_integration.py:112 | a cleaned item is a contiguous piece of its line |
| `LlmIntegration.LineItems` | Backend/llm_integration.py:112 | the comprehension yields at most one item per line |
| `LlmIntegration.ListItemsAppend` | Backend/llm_integration.py:112 | the items of two runs of lines are the first run's items followed by the second's: one item per non-blank line, in line order |
| `LlmIntegration.ListItems` | Backend/llm_integration.py:112 | the list comprehension over the lines; `ListItemsAppend` shows it yields each non-blank line's cleaned item in line order, `ListItemsSource` that each item comes from a line, and `CleanItem` what cleaning removes |
| `LlmIntegration.ListItemsSource` | Backend/llm_integration.py:112 | every item is a piece of one of the lines |
| `LlmIntegration.BareBulletGivesEmptyItem` | Backend/llm_integration.py:112 | a line of only `-` and spaces that holds a `-` passes the blank-line filter and yields the empty item |
| `LlmIntegration.ExtractListItems` | Backend/llm_integration.py:109-112 | no items when the title is absent |
| `LlmIntegration.ListItemsFromText` | Backend/llm_integration.py:109-112 | every item is a newline-free substring of the text |
| `LlmIntegration.FirstItemIsTitleLine` | Backend/llm_integration.py:107-112 | for a found title that holds no newline and neither starts nor ends with `-` or whitespace, there is a first item and it starts with the title |
| `LlmIntegration.ParseLlmResponse` | Backend/llm_integration.py:81-99 | the record's kind follows the mode, and the raw reply is kept verbatim as `code_insights` or `detailed`. Each of `purpose`, `overview` and `architecture` is empty exactly when its heading is missing from the reply; otherwise it is a substring of the reply that starts with the heading. Each component is a newline-free substring of the reply |
| `LlmIntegration.LabelledSection` | Backend/llm_integration.py:101-107 | for a newline-free heading, the section is empty exactly when the heading is absent, and otherwise a substring of the text starting with the heading |
| `LlmIntegration.NumberedTasksContain` | Backend/llm_integration.py:64-68 | every task appears as its own numbered line, numbered in list order |
| `LlmIntegration.BasePromptLines` | Backend/llm_integration.py:49-54 | the base block holds the repository name, the description (the default `'None'` only for a missing key; a `null` value is written `None` too), the language (the default `'Unknown'` only for a missing key) and the rendered tree |
| `LlmIntegration.BuildAnalysisPrompt` | Backend/llm_integration.py:47-79 | the file variant raises a `KeyError` exactly when it lacks `current_file`, `language` or `file_content`, naming the first missing key in that order; the repository variant never raises, and every prompt opens with the indented base block |
| `LlmIntegration.CodePromptMentions` | Backend/llm_integration.py:56-69 | the file prompt names the current file, fences its content under `repo_data['language']` and asks the four numbered questions |
| `LlmIntegration.RepoPromptMentions` | Backend/llm_integration.py:70-79 | the repository prompt asks for repository-level analysis with its five numbered points |
| `RepoHandler.RunEnd` | Backend/repo_handler.py:29 | a greedy `[\w\-\.]+` stops at the end of the longest run of class characters |
| `RepoHandler.MatchStripped` | Backend/repo_handler.py:29-34 | `re.match` of the pattern on already stripped text, with its two groups; `MatchStrippedExact` characterises it exactly |
| `RepoHandler.MatchRepoUrl` | Backend/repo_handler.py:65-68 | `re.match(pattern, url.strip())` with its groups; `MatchExact` characterises it exactly |
| `RepoHandler.MatchSound` | Backend/repo_handler.py:29-34 | a match means the stripped URL starts with `https://github.com/{owner}/{repo}`, with both groups non-empty class runs and the name group maximal |
| `RepoHandler.MatchComplete` | Backend/repo_handler.py:29-34 | any stripped URL that starts with `https://github.com/{owner}/{repo}` for valid groups matches; the owner group is that owner, and the name group extends that name |
| `RepoHandler.MatchStrippedExact` | Backend/repo_handler.py:29-34 | the match gives a pair of groups if and only if the stripped URL matches as those groups, so the groups are unique |
| `RepoHandler.MatchesWithTail` | Backend/repo_handler.py:29-34 | since `re.match` anchors only at the start, a repository URL followed by anything not starting with a class character still matches as that repository |
| `RepoHandler.MatchExact` | Backend/repo_handler.py:65-68 | the same for `re.match` on `url.strip()` |
| `RepoHandler.RepoUrlReparses` | Backend/repo_handler.py:65-68 | `https://github.com/{user}/{repo}` matches back to the same owner and name |
| `RepoHandler.ArchiveUrlReparses` | Backend/repo_handler.py:76 | the archive URL `https://github.com/{user}/{repo}/archive/refs/heads/{branch}.zip` names the repository it was built from, whatever the branch |
| `RepoHandler.RepoApiUrl` | Backend/repo_handler.py:69 | the metadata URL `https://api.github.com/repos/{user}/{repo}`; both methods' logs show it is the first request for a matched URL |
| `RepoHandler.ContentUrl` | Backend/repo_handler.py:44 | the contents URL `https://api.github.com/repos/{user}/{repo}/contents/{file_path}?ref={default_branch}`; `FetchFileContent`'s log shows it is the second request, issued only after a successful metadata reply |
| `RepoHandler.ArchiveUrl` | Backend/repo_handler.py:76 | the archive URL; `ArchiveUrlReparses` shows it names the repository it was built from |
| `RepoHandler.ExtractedFolder` | Backend/repo_handler.py:90 | the folder `{repo}-{default_branch}` that must exist after extraction; `InTempDir` returns a summary only when it does |
| `RepoHandler.DefaultBranch` | Backend/repo_handler.py:75 | `meta_data.get("default_branch", "main")`; the contracts of `FetchFileContent`, `ProcessGitHubRepo`, `InTempDir` and `ScanArchive` state that the branch is `meta["default_branch"]` when the key is present, even when it is `null`, and `"main"` only when it is absent |
| `RepoHandler.LanguageTag` | Backend/repo_handler.py:57 | `file_path.split(".")[-1]`; `LanguageTagIsExtension` characterises it |
| `RepoHandler.LanguageTagIsExtension` | Backend/repo_handler.py:57 | the tag is a dot-free suffix of the path that is all of it or follows a `.`; it is the whole path when there is no `.` |
| `RepoHandler.FetchFileContent` | Backend/repo_handler.py:26-61 | an invalid URL gives "Invalid GitHub URL" with no request issued; every other outcome is stated step by step, from the repository-info request through the content request to `{repo_api}/contents/{file_path}?ref={branch}`, where the branch is `default_branch` when that key is present (even `null`) and `main` only when it is absent |
| `RepoHandler.ProcessGitHubRepo` | Backend/repo_handler.py:63-103 | an invalid URL gives an error with no request; a failed metadata request stops before the archive is requested; after it, the archive for `default_branch` (`main` only when the key is absent) is requested inside the temporary directory, which is always removed last |
| `RepoHandler.InTempDir` | Backend/repo_handler.py:78-103 | a summary comes back exactly when the download, the extraction to `{repo}-{branch}`, the `name` lookup and the tree build all succeed; it carries the metadata with defaults for absent keys and the built tree; inside the block no exception escapes |
| `RepoHandler.ScanArchive` | Backend/repo_handler.py:79-103 | the early-return steps inside the `with` block compute `InTempDir` and issue exactly the archive request |

## Left out

- The HTTP calls are left out: `requests.get`, `requests.post`, `raise_for_status`, the timeout and the bearer header. The network is a parameter from URL to outcome, and `analyze_with_together` is not modelled.
- `tempfile`, writing the zip, `zipfile.extractall`, `os.path.exists` and `os.walk` are filesystem work. Their results are inputs: the extracted paths, or the exception raised while unpacking, and the walk entries.
- `base64.b64decode(content).decode("utf-8")` is a library call. It is an opaque parameter that returns the text or the exception message.
- The `str()` of the file-tree dict inside the prompt is Python's dict repr. It is an uninterpreted `render` parameter.
- `FileTree.Node` stores a directory's entries in a `map`, which does not keep the insertion order of a Python dict. That order follows the walk order. It is visible only through `str()` of the tree in the prompt (the uninterpreted `render`) and through the order of keys in the JSON reply, and is not modelled.
- `\w` is read as ASCII letters, digits and `_`. Python's Unicode word characters are not modelled.
- `parse_llm_response` takes the reply text directly. Reading `['choices'][0]['message']['content']`, and the `KeyError`/`IndexError` it can raise, are not modelled.
- JSON values are null, booleans, integers and strings. Floats, lists and nested objects are not modelled. A response body that is not an object appears only through the message of the exception its `.get` raises.
- Backend/main.py is not part of this model. It holds the endpoint wiring, the `"error" in dict` checks and the merge of the file data into `repo_data`.
- In the prompt, `repo_data` always has `name` and `file_tree`. The `KeyError` that their absence would raise is not modelled. The callers in Backend/main.py always pass the output of `process_github_repo`, which holds both keys.
- `load_dotenv`/`os.getenv`, the `temperature` float and `async` are left out. The coroutines never await, so there is no concurrency to model.
- `LlmIntegration.LineItems`: the contract states only "at most one item per line". Which item, and when, is stated by `ListItemsAppend`, `CleanItem` and `BareBulletGivesEmptyItem`.
