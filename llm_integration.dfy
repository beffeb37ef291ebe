/** Prompt building and response structuring (Backend/llm_integration.py):
    everything in that file except the HTTP call of `analyze_with_together`.
    All four operations are total functions over strings. */
module LlmIntegration {
  import opened Wrappers
  import opened PyStr
  import opened PyValue
  import FileTree

  // ---------------------------------------------------------------------------
  // extract_section and extract_list_items

  const BlankLine: string := "\n\n"

  /** `extract_section(text, title)`: from the first occurrence of `title` up
      to, not including, the next blank line at or after it, or to the end of
      the text; `""` when `title` does not occur. */
  function ExtractSection(text: string, title: string): (r: string)
    ensures !Contains(text, title) ==> r == ""
    ensures Contains(text, title) ==>
      var s := Find(text, title, 0);
      0 <= s && s + |r| <= |text| && r == text[s..s + |r|] &&
      (forall j :: s <= j < s + |r| ==> !OccursAt(text, BlankLine, j)) &&
      (s + |r| == |text| || OccursAt(text, BlankLine, s + |r|))
  {
    FindNone(text, title);
    var start := Find(text, title, 0);
    if start == -1 then ""
    else
      var end := Find(text, BlankLine, start);
      text[start..if end != -1 then end else |text|]
  }

  /** The first occurrence of `title` is where the section starts, so a found
      section begins with `title` whenever `title` holds no blank line and
      does not end with a newline (which the blank line could overlap). */
  lemma SectionStartsWithTitle(text: string, title: string)
    requires Contains(text, title)
    requires !Contains(title, BlankLine) && (title == [] || title[|title| - 1] != '\n')
    ensures StartsWith(ExtractSection(text, title), title)
  {
    var s := Find(text, title, 0);
    var r := ExtractSection(text, title);
    NoBlankLineInside(text, title, s);
    assert |r| >= |title|;
    assert forall j :: 0 <= j < |title| ==> r[j] == text[s + j] == title[j];
    assert r[..|title|] == title;
  }

  /** No blank line starts inside an occurrence of a title that holds none
      and does not end with a newline. */
  lemma NoBlankLineInside(text: string, title: string, s: int)
    requires OccursAt(text, title, s)
    requires !Contains(title, BlankLine) && (title == [] || title[|title| - 1] != '\n')
    ensures forall i :: s <= i < s + |title| ==> !OccursAt(text, BlankLine, i)
  {
    forall i | s <= i < s + |title| ensures !OccursAt(text, BlankLine, i) {
      var j := i - s;
      assert text[s + j] == title[j];
      if j + 1 < |title| {
        assert text[s + j + 1] == title[j + 1];
        assert !OccursAt(title, BlankLine, j);
        assert title[j..j + 2] != BlankLine;
      }
    }
  }

  /** A section never holds a blank line: it stops at the first one. */
  lemma SectionHasNoBlankLine(text: string, title: string)
    ensures !Contains(ExtractSection(text, title), BlankLine)
  {
    var r := ExtractSection(text, title);
    if Contains(text, title) {
      var s := Find(text, title, 0);
      forall i | 0 <= i <= |r| ensures !OccursAt(r, BlankLine, i) {
        if i + 2 <= |r| {
          assert r[i..i + 2] == text[s + i..s + i + 2];
          assert !OccursAt(text, BlankLine, s + i);
        }
      }
    }
  }

  /** The characters of `line.strip("- ")`. */
  const DashSpace: CharSet := Listed("- ")

  /** What the comprehension keeps of one line: `line.strip("- ").strip()`,
      which has no whitespace at either end. */
  function CleanItem(line: string): (r: string)
    ensures r == [] || (!IsSpace(r[0]) && !IsSpace(r[|r| - 1]))
  {
    StripCuts(Strip(line, DashSpace), Whitespace);
    Strip(Strip(line, DashSpace), Whitespace)
  }

  /** A cleaned item is a contiguous piece of its line. */
  lemma CleanItemOccurs(line: string)
    ensures Contains(line, CleanItem(line))
  {
    var inner := Strip(line, DashSpace);
    OccursCompose(line, inner, CleanItem(line), LeftCut(line, DashSpace, 0), LeftCut(inner, Whitespace, 0));
  }

  /** The comprehension's filter drops a line whose `line.strip()` is empty. */
  predicate IsBlank(line: string) {
    Strip(line, Whitespace) == ""
  }

  /** What the comprehension yields for one line: nothing for a blank line,
      the cleaned line otherwise. */
  function LineItems(line: string): (r: seq<string>)
    ensures |r| <= 1
  {
    if IsBlank(line) then [] else [CleanItem(line)]
  }

  /** A list comprehension over `xs` that yields `f(x)` for each element,
      in order. */
  function Gather<T, U>(f: T -> seq<U>, xs: seq<T>): seq<U> {
    if xs == [] then [] else f(xs[0]) + Gather(f, xs[1..])
  }

  lemma {:induction false} GatherAppend<T, U>(f: T -> seq<U>, a: seq<T>, b: seq<T>)
    ensures Gather(f, a + b) == Gather(f, a) + Gather(f, b)
  {
    if a != [] {
      assert (a + b)[0] == a[0] && (a + b)[1..] == a[1..] + b;
      GatherAppend(f, a[1..], b);
    } else {
      assert a + b == b;
    }
  }

  /** Every output comes from one element. */
  lemma {:induction false} GatherSource<T, U>(f: T -> seq<U>, xs: seq<T>, k: nat) returns (i: nat)
    requires k < |Gather(f, xs)|
    ensures i < |xs| && Gather(f, xs)[k] in f(xs[i])
  {
    var head := f(xs[0]);
    if k < |head| {
      i := 0;
    } else {
      var i' := GatherSource(f, xs[1..], k - |head|);
      i := i' + 1;
    }
  }

  /** The first output of a comprehension whose first element yields one. */
  lemma GatherFirst<T, U>(f: T -> seq<U>, xs: seq<T>)
    requires |xs| > 0 && |f(xs[0])| > 0
    ensures |Gather(f, xs)| > 0 && Gather(f, xs)[0] == f(xs[0])[0]
  {
  }

  /** `[line.strip("- ").strip() for line in lines if line.strip()]`. */
  function ListItems(lines: seq<string>): seq<string> {
    Gather(LineItems, lines)
  }

  /** One item per non-blank line, in line order: the items of two runs of
      lines are the items of the first followed by those of the second. */
  lemma ListItemsAppend(a: seq<string>, b: seq<string>)
    ensures ListItems(a + b) == ListItems(a) + ListItems(b)
  {
    GatherAppend(LineItems, a, b);
  }

  /** Every item is a piece of one of the lines. */
  lemma ListItemsSource(lines: seq<string>, k: nat) returns (i: nat)
    requires k < |ListItems(lines)|
    ensures i < |lines| && Contains(lines[i], ListItems(lines)[k])
  {
    i := GatherSource(LineItems, lines, k);
    CleanItemOccurs(lines[i]);
  }

  /** A bullet with no text, such as `"- "` or `"-"`, is not blank, so it
      passes the filter, yet it cleans to the empty item. */
  lemma BareBulletGivesEmptyItem(line: string)
    requires '-' in line && forall i :: 0 <= i < |line| ==> line[i] == '-' || line[i] == ' '
    ensures !IsBlank(line) && LineItems(line) == [""]
  {
    var k :| 0 <= k < |line| && line[k] == '-';
    var i := LeftCut(line, Whitespace, 0);
    assert i <= k;
    var n := RightCut(line, Whitespace, i, |line|);
    assert n > k;
    assert Strip(line, Whitespace) != "";
    assert LeftCut(line, DashSpace, 0) == |line|;
  }

  /** `extract_list_items(text, section_title)`: the cleaned non-blank lines
      of the section; none at all when the title is absent, since
      `"".split("\n")` is `[""]` and that line is blank. */
  function ExtractListItems(text: string, sectionTitle: string): (r: seq<string>)
    ensures !Contains(text, sectionTitle) ==> r == []
  {
    NoItemsInEmptyText();
    ListItems(Split(ExtractSection(text, sectionTitle), '\n'))
  }

  lemma NoItemsInEmptyText()
    ensures ListItems(Split("", '\n')) == []
  {
    var lines := Split("", '\n');
    assert lines == [""] && lines[1..] == [];
    assert IsBlank("");
  }

  /** Every item is a newline-free piece of the text. */
  lemma ListItemsFromText(text: string, sectionTitle: string)
    ensures forall k :: 0 <= k < |ExtractListItems(text, sectionTitle)| ==>
      '\n' !in ExtractListItems(text, sectionTitle)[k] && Contains(text, ExtractListItems(text, sectionTitle)[k])
  {
    var section := ExtractSection(text, sectionTitle);
    if Contains(text, sectionTitle) {
      assert OccursAt(text, section, Find(text, sectionTitle, 0));
      forall k | 0 <= k < |ListItems(Split(section, '\n'))|
        ensures '\n' !in ListItems(Split(section, '\n'))[k] && Contains(text, ListItems(Split(section, '\n'))[k])
      {
        SectionItemsFromText(text, section, k);
      }
    }
  }

  lemma SectionItemsFromText(text: string, section: string, k: nat)
    requires Contains(text, section)
    requires k < |ListItems(Split(section, '\n'))|
    ensures var item := ListItems(Split(section, '\n'))[k];
      '\n' !in item && Contains(text, item)
  {
    var lines := Split(section, '\n');
    var item := ListItems(lines)[k];
    var i := ListItemsSource(lines, k);
    SplitPiecesOccur(section, '\n', i);
    ContainsTrans(text, section, lines[i], item);
    NewlineFreePiece(lines[i], item);
  }

  /** A piece of a line without a newline has none either. */
  lemma NewlineFreePiece(line: string, piece: string)
    requires '\n' !in line && Contains(line, piece)
    ensures '\n' !in piece
  {
    var j :| 0 <= j <= |line| && OccursAt(line, piece, j);
    forall n | 0 <= n < |piece| ensures piece[n] != '\n' {
      assert piece[n] == line[j + n];
      assert line[j + n] in line;
    }
  }

  lemma ContainsTrans(a: string, b: string, c: string, d: string)
    requires Contains(a, b) && Contains(b, c) && Contains(c, d)
    ensures Contains(a, d)
  {
    var i :| 0 <= i <= |a| && OccursAt(a, b, i);
    var j :| 0 <= j <= |b| && OccursAt(b, c, j);
    var k :| 0 <= k <= |c| && OccursAt(c, d, k);
    OccursCompose(b, c, d, j, k);
    OccursCompose(a, b, d, i, j + k);
  }

  lemma ContainsTrans2(a: string, b: string, c: string)
    requires Contains(a, b) && Contains(b, c)
    ensures Contains(a, c)
  {
    var i :| 0 <= i <= |a| && OccursAt(a, b, i);
    var j :| 0 <= j <= |b| && OccursAt(b, c, j);
    OccursCompose(a, b, c, i, j);
  }

  /** A string without a newline holds no blank line. */
  lemma NoNewlineNoBlankLine(s: string)
    requires '\n' !in s
    ensures !Contains(s, BlankLine) && (s == [] || s[|s| - 1] != '\n')
  {
    forall i | 0 <= i <= |s| ensures !OccursAt(s, BlankLine, i) {
      if i + 2 <= |s| {
        assert s[i] in s;
        assert s[i..i + 2][0] == s[i];
      }
    }
    if s != [] {
      assert s[|s| - 1] in s;
    }
  }

  /** The label line itself is the first item: when the title is found and
      holds no newline, and neither starts nor ends with `'-'` or whitespace,
      the first item starts with the title. */
  lemma FirstItemIsTitleLine(text: string, title: string)
    requires Contains(text, title) && title != [] && '\n' !in title
    requires title[0] != '-' && !IsSpace(title[0])
    requires title[|title| - 1] != '-' && !IsSpace(title[|title| - 1])
    ensures var items := ExtractListItems(text, title);
      |items| > 0 && StartsWith(items[0], title)
  {
    var section := ExtractSection(text, title);
    NoNewlineNoBlankLine(title);
    SectionStartsWithTitle(text, title);
    var lines := Split(section, '\n');
    var line := lines[0];
    assert forall j :: 0 <= j < |title| ==> section[j] == title[j] && title[j] in title;
    assert |line| >= |title|;
    assert line[..|title|] == section[..|title|];
    CleanKeepsTitle(line, title);
    GatherFirst(LineItems, lines);
  }

  /** A line that starts with such a title is not blank, and cleaning it
      keeps the title at its start. */
  lemma CleanKeepsTitle(line: string, title: string)
    requires StartsWith(line, title) && title != []
    requires title[0] != '-' && !IsSpace(title[0])
    requires title[|title| - 1] != '-' && !IsSpace(title[|title| - 1])
    ensures !IsBlank(line) && LineItems(line) == [CleanItem(line)]
    ensures StartsWith(CleanItem(line), title)
  {
    assert !InSet(title[0], DashSpace) && !InSet(title[|title| - 1], DashSpace);
    StripKeepsPrefix(line, DashSpace, title);
    StripKeepsPrefix(Strip(line, DashSpace), Whitespace, title);
    StripKeepsPrefix(line, Whitespace, [title[0]]);
  }

  // ---------------------------------------------------------------------------
  // parse_llm_response

  /** The structured record: the code-level one under `"analysis"`, or the
      repository-level one. */
  datatype Analysis =
    | CodeAnalysis(purpose: string, components: seq<string>, codeInsights: string)
    | RepoAnalysis(overview: string, detailed: string, architecture: string)

  /** `parse_llm_response` once `content` has been taken from
      `choices[0].message.content`. The record's kind follows the mode and
      the raw reply is always kept verbatim; whatever the model wrote, every
      parsed section is empty exactly when its heading is missing and is
      otherwise a piece of the reply starting with the heading, and every
      listed component is a newline-free piece of the reply. */
  function ParseLlmResponse(content: string, analyzeCode: bool): (r: Analysis)
    ensures analyzeCode <==> r.CodeAnalysis?
    ensures r.CodeAnalysis? ==>
      r.codeInsights == content &&
      r.purpose == ExtractSection(content, "Purpose") &&
      r.components == ExtractListItems(content, "Key functions/classes")
    ensures r.RepoAnalysis? ==>
      r.detailed == content &&
      r.overview == ExtractSection(content, "Project purpose") &&
      r.architecture == ExtractSection(content, "Architectural patterns")
    ensures r.CodeAnalysis? ==>
      LabelledPiece(content, r.purpose, "Purpose") &&
      forall k :: 0 <= k < |r.components| ==> '\n' !in r.components[k] && Contains(content, r.components[k])
    ensures r.RepoAnalysis? ==>
      LabelledPiece(content, r.overview, "Project purpose") &&
      LabelledPiece(content, r.architecture, "Architectural patterns")
  {
    if analyzeCode then
      LabelledSection(content, "Purpose");
      ListItemsFromText(content, "Key functions/classes");
      CodeAnalysis(ExtractSection(content, "Purpose"),
                   ExtractListItems(content, "Key functions/classes"),
                   content)
    else
      LabelledSection(content, "Project purpose");
      LabelledSection(content, "Architectural patterns");
      RepoAnalysis(ExtractSection(content, "Project purpose"),
                   content,
                   ExtractSection(content, "Architectural patterns"))
  }

  /** `piece` is empty exactly when `heading` is missing from `reply`, and is
      otherwise a substring of `reply` that starts with `heading`. */
  predicate LabelledPiece(reply: string, piece: string, heading: string) {
    (piece == "" <==> !Contains(reply, heading)) &&
    (piece != "" ==> Contains(reply, piece) && StartsWith(piece, heading))
  }

  lemma LabelledSection(text: string, heading: string)
    requires heading != [] && '\n' !in heading
    ensures LabelledPiece(text, ExtractSection(text, heading), heading)
  {
    var r := ExtractSection(text, heading);
    if Contains(text, heading) {
      NoNewlineNoBlankLine(heading);
      SectionStartsWithTitle(text, heading);
      assert OccursAt(text, r, Find(text, heading, 0));
    }
  }

  // ---------------------------------------------------------------------------
  // build_analysis_prompt

  /** The keys of `repo_data` the prompt reads. Each optional one is `None`
      when the key is absent; `fileContent` is the text the f-string
      substitutes for `repo_data['file_content']`. */
  datatype RepoData = RepoData(
    name: Json,
    description: Option<Json>,
    language: Option<Json>,
    fileTree: FileTree.Node,
    currentFile: Option<string>,
    fileContent: Option<string>)

  /** The indentation of the lines inside the two returned f-strings. */
  const Indent: string := "\n        "

  const CodeTasks: seq<string> :=
    ["Purpose of this file", "Key functions/classes", "Dependencies",
     "Any security/performance concerns"]

  const RepoTasks: seq<string> :=
    ["Project purpose (1 sentence)", "Key components", "Architectural patterns",
     "Getting started guide", "Code quality assessment"]

  /** `"".join(pieces)`: the f-strings below are written as the pieces they
      concatenate. */
  function Concat(pieces: seq<string>): string {
    if pieces == [] then "" else pieces[0] + Concat(pieces[1..])
  }

  /** Every piece of a concatenation occurs in it. */
  lemma {:induction false} ConcatHolds(pieces: seq<string>, k: nat)
    requires k < |pieces|
    ensures Contains(Concat(pieces), pieces[k])
  {
    var rest := Concat(pieces[1..]);
    if k == 0 {
      assert OccursAt(pieces[0] + rest, pieces[0], 0);
    } else {
      ConcatHolds(pieces[1..], k - 1);
      ContainsRight(pieces[0], rest, pieces[k]);
    }
  }

  /** The numbered line `n. task` of a task list. */
  function TaskLine(n: nat, task: string): string {
    Indent + Decimal(n) + ". " + task
  }

  /** The numbered lines of `tasks`, numbered from `n`. */
  function NumberedTasks(tasks: seq<string>, n: nat): string {
    if tasks == [] then "" else TaskLine(n, tasks[0]) + NumberedTasks(tasks[1..], n + 1)
  }

  /** Every task appears as its own numbered line, numbered from `n`. */
  lemma {:induction false} NumberedTasksContain(tasks: seq<string>, n: nat, k: nat)
    requires k < |tasks|
    ensures Contains(NumberedTasks(tasks, n), TaskLine(n + k, tasks[k]))
  {
    var line := TaskLine(n, tasks[0]);
    var rest := NumberedTasks(tasks[1..], n + 1);
    if k == 0 {
      assert OccursAt(line + rest, line, 0);
    } else {
      NumberedTasksContain(tasks[1..], n + 1, k - 1);
      ContainsRight(line, rest, TaskLine(n + k, tasks[k]));
    }
  }

  lemma ContainsRight(a: string, b: string, c: string)
    requires Contains(b, c)
    ensures Contains(a + b, c)
  {
    var i :| 0 <= i <= |b| && OccursAt(b, c, i);
    assert OccursAt(a + b, b, |a|);
    OccursCompose(a + b, b, c, |a|, i);
  }

  /** The text substituted for `repo_data.get(key, default)`. */
  function TextOr(v: Option<Json>, default: string): string {
    match v
    case Some(x) => Text(x)
    case None => default
  }

  /** The lines of `base_prompt`: name, description (default `'None'`),
      language (default `'Unknown'`) and the file tree as `render` writes
      the dict. */
  function BaseLines(data: RepoData, render: FileTree.Node -> string): seq<string> {
    ["\n    Repository: " + Text(data.name),
     "\n    Description: " + TextOr(data.description, "None"),
     "\n    Language: " + TextOr(data.language, "Unknown"),
     "\n    File Structure: " + render(data.fileTree),
     "\n    "]
  }

  function BasePrompt(data: RepoData, render: FileTree.Node -> string): string {
    Concat(BaseLines(data, render))
  }

  /** The base block names the repository, its description and its language,
      falling back to the defaults only for a missing key (a `null` value is
      written as `None`), and the rendered tree. */
  lemma BasePromptLines(data: RepoData, render: FileTree.Node -> string)
    ensures var b := BasePrompt(data, render);
      Contains(b, "\n    Repository: " + Text(data.name)) &&
      Contains(b, "\n    Description: " + (if data.description.Some? then Text(data.description.value) else "None")) &&
      Contains(b, "\n    Language: " + (if data.language.Some? then Text(data.language.value) else "Unknown")) &&
      Contains(b, "\n    File Structure: " + render(data.fileTree))
  {
    var lines := BaseLines(data, render);
    ConcatHolds(lines, 0);
    ConcatHolds(lines, 1);
    ConcatHolds(lines, 2);
    ConcatHolds(lines, 3);
  }

  /** The line naming the file under analysis. */
  function AnalyzeLine(currentFile: string): string {
    Indent + "Analyze THIS CODE from " + currentFile + ":"
  }

  /** The fenced code block, tagged with `repo_data['language']`. */
  function Fence(language: Json, fileContent: string): string {
    "```" + Text(language) + Indent + fileContent + Indent + "```"
  }

  const RepoIntro: string := Indent + "Provide repository-level analysis:"

  /** The pieces of the prompt `build_analysis_prompt` returns. */
  function PromptPieces(data: RepoData, analyzeCode: bool, render: FileTree.Node -> string): seq<string>
    requires analyzeCode ==> data.currentFile.Some? && data.language.Some? && data.fileContent.Some?
  {
    var head := Indent + BasePrompt(data, render);
    if analyzeCode then
      [head, AnalyzeLine(data.currentFile.value), Indent,
       Fence(data.language.value, data.fileContent.value),
       Indent + Indent + "Provide:", NumberedTasks(CodeTasks, 1), Indent]
    else
      [head, RepoIntro, NumberedTasks(RepoTasks, 1), Indent]
  }

  /** What `str()` of the `KeyError` raised by `repo_data[key]` reads. */
  function MissingKey(key: string): string {
    "'" + key + "'"
  }

  /** `build_analysis_prompt(repo_data, analyze_code)`, or the `KeyError` it
      raises. The code variant reads `repo_data['current_file']`, then
      `repo_data['language']`, then `repo_data['file_content']`; the
      repository variant reads none of them. Every prompt opens with the base
      block. */
  function BuildAnalysisPrompt(data: RepoData, analyzeCode: bool, render: FileTree.Node -> string): (r: Result<string>)
    ensures r.Err? <==> analyzeCode && (data.currentFile.None? || data.language.None? || data.fileContent.None?)
    ensures r.Err? ==>
      r.error == (if data.currentFile.None? then MissingKey("current_file")
                  else if data.language.None? then MissingKey("language")
                  else MissingKey("file_content"))
    ensures r.Ok? ==> StartsWith(r.value, Indent + BasePrompt(data, render))
  {
    if analyzeCode && data.currentFile.None? then Err(MissingKey("current_file"))
    else if analyzeCode && data.language.None? then Err(MissingKey("language"))
    else if analyzeCode && data.fileContent.None? then Err(MissingKey("file_content"))
    else
      var pieces := PromptPieces(data, analyzeCode, render);
      assert Concat(pieces) == pieces[0] + Concat(pieces[1..]);
      Ok(Concat(pieces))
  }

  /** The code prompt names the file, fences its content under the
      language tag and asks the four numbered questions. */
  lemma CodePromptMentions(data: RepoData, render: FileTree.Node -> string)
    requires data.currentFile.Some? && data.language.Some? && data.fileContent.Some?
    ensures BuildAnalysisPrompt(data, true, render).Ok?
    ensures var r := BuildAnalysisPrompt(data, true, render).value;
      Contains(r, AnalyzeLine(data.currentFile.value)) &&
      Contains(r, Fence(data.language.value, data.fileContent.value)) &&
      forall k :: 0 <= k < |CodeTasks| ==> Contains(r, TaskLine(k + 1, CodeTasks[k]))
  {
    var pieces := PromptPieces(data, true, render);
    var r := Concat(pieces);
    ConcatHolds(pieces, 1);
    ConcatHolds(pieces, 3);
    ConcatHolds(pieces, 5);
    forall k | 0 <= k < |CodeTasks| ensures Contains(r, TaskLine(k + 1, CodeTasks[k])) {
      NumberedTasksContain(CodeTasks, 1, k);
      ContainsTrans2(r, pieces[5], TaskLine(k + 1, CodeTasks[k]));
    }
  }

  /** The repository prompt asks for the repository-level analysis and its
      five numbered points. */
  lemma RepoPromptMentions(data: RepoData, render: FileTree.Node -> string)
    ensures BuildAnalysisPrompt(data, false, render).Ok?
    ensures var r := BuildAnalysisPrompt(data, false, render).value;
      Contains(r, RepoIntro) &&
      forall k :: 0 <= k < |RepoTasks| ==> Contains(r, TaskLine(k + 1, RepoTasks[k]))
  {
    var pieces := PromptPieces(data, false, render);
    var r := Concat(pieces);
    ConcatHolds(pieces, 1);
    ConcatHolds(pieces, 2);
    forall k | 0 <= k < |RepoTasks| ensures Contains(r, TaskLine(k + 1, RepoTasks[k])) {
      NumberedTasksContain(RepoTasks, 1, k);
      ContainsTrans2(r, pieces[2], TaskLine(k + 1, RepoTasks[k]));
    }
  }
}
