/** The interactive `scripts/add-article.js` tool: the answers it reads, the
    record it builds from them, and the order in which it writes the page and
    the index. Prompts and console output are left out; each answer is the
    line the user typed. */
module Cli {
  import opened Options
  import opened Strings
  import opened Seqs
  import opened Slug
  import opened Articles
  import opened Template
  import opened Server

  /** `split(',').map(t => t.trim()).filter(t => t)`: the comma-separated
      items, trimmed, without empty ones. */
  function ParseTags(s: string): (r: seq<string>)
    ensures forall i | 0 <= i < |r| :: r[i] != "" && Trimmed(r[i]) && ',' !in r[i]
  {
    var pieces := Split(s, ',');
    var trimmed := seq(|pieces|, i requires 0 <= i < |pieces| => Trim(pieces[i]));
    forall i | 0 <= i < |pieces|
      ensures ',' !in trimmed[i]
    {
      TrimNoNewChar(pieces[i], ',');
    }
    Filter((t: string) => t != "", trimmed)
  }

  /** Trimming does not invent characters. */
  lemma TrimNoNewChar(s: string, c: char)
    requires c !in s
    ensures c !in Trim(s)
  {
    var t := TrimStart(s);
    NotInInfix(s, |s| - |t|, |s|, c);
    NotInInfix(t, 0, |TrimEnd(t)|, c);
  }

  lemma NotInInfix(s: string, i: nat, j: nat, c: char)
    requires i <= j <= |s| && c !in s
    ensures c !in s[i..j]
  {
    assert forall k | 0 <= k < j - i :: s[i..j][k] == s[i + k];
  }

  /** A tag list written out with commas reads back as the same list. */
  lemma ParseTagsJoin(ts: seq<string>)
    requires forall i | 0 <= i < |ts| :: ts[i] != "" && Trimmed(ts[i]) && ',' !in ts[i]
    ensures ParseTags(Join(ts, ",")) == ts
  {
    if ts == [] {
      ParseTagsEmpty();
    } else {
      SplitJoin(ts, ',');
      TrimAllTrimmed(ts);
      FilterAll((t: string) => t != "", ts);
    }
  }

  lemma TrimAllTrimmed(ts: seq<string>)
    requires forall i | 0 <= i < |ts| :: Trimmed(ts[i])
    ensures seq(|ts|, i requires 0 <= i < |ts| => Trim(ts[i])) == ts
  {
    forall i | 0 <= i < |ts|
      ensures Trim(ts[i]) == ts[i]
    {
      TrimTrimmed(ts[i]);
    }
  }

  lemma ParseTagsEmpty()
    ensures ParseTags("") == []
  {
    assert IndexOfFrom("", [','], 0).None?;
    var pieces := Split("", ',');
    assert pieces == [""];
    TrimTrimmed("");
    var trimmed := seq(|pieces|, i requires 0 <= i < |pieces| => Trim(pieces[i]));
    assert trimmed == [""];
    assert Filter((t: string) => t != "", trimmed) == [];
  }

  /** `parseInt(s) || 5`: 5 when the answer is not a number or is 0. */
  function ParseReadTime(s: string): (r: int)
    ensures r != 0
    ensures (ParseInt(s).None? || ParseInt(s) == Some(0)) ==> r == 5
    ensures ParseInt(s).Some? && ParseInt(s) != Some(0) ==> r == ParseInt(s).value
  {
    match ParseInt(s)
    case None => 5
    case Some(v) => if v == 0 then 5 else v
  }

  /** A non-zero read time typed as a number is kept as is, negative ones
      included. */
  lemma ReadTimeRoundTrip(n: int)
    requires n != 0
    ensures ParseReadTime(IntToString(n)) == n
  {
    ParseIntToString(n);
  }

  /** The lines the user typed, one per question, before trimming. */
  datatype Answers = Answers(
    title: string,
    id: string,
    date: string,
    tags: string,
    excerpt: string,
    readTime: string,
    status: string,
    icon: string)

  datatype CliError = NoTitle | BadStatus | NoTemplate | WriteFailed | DuplicateId

  datatype Result<T> = Success(value: T) | Error(err: CliError)

  /** `answer || fallback` on a trimmed answer. */
  function OrElse(answer: string, fallback: string): string {
    if answer == "" then fallback else answer
  }

  predicate KnownStatus(s: string) {
    s == "published" || s == "draft"
  }

  /** The record `addArticle` builds from the answers, each trimmed as
      `askQuestion` does. A missing title and an unknown status are errors
      raised before anything is written. */
  function BuildRecord(today: string, ans: Answers): (r: Result<Article>)
    ensures r == Error(NoTitle) <==> Trim(ans.title) == ""
    ensures r == Error(BadStatus) <==> Trim(ans.title) != "" && !KnownStatus(OrElse(Trim(ans.status), "draft"))
    ensures r.Error? ==> r.err == NoTitle || r.err == BadStatus
    ensures r.Success? ==>
      var a := r.value;
      && a.title == Trim(ans.title)
      && a.id == (if Trim(ans.id) != "" then Trim(ans.id) else GenerateId(Trim(ans.title)))
      && a.date == OrElse(Trim(ans.date), today)
      && a.contentFile == ContentFile(a.date, a.id)
      && a.excerpt == Trim(ans.excerpt)
      && KnownStatus(a.status)
      && a.status == (if Trim(ans.status) == "" then "draft" else Trim(ans.status))
      && a.readTime == ParseReadTime(Trim(ans.readTime))
      && a.tags == ParseTags(Trim(ans.tags))
      && a.icon == (if Trim(ans.icon) == "" then DefaultIcon else "icon-" + Trim(ans.icon) + ".svg")
      && a.content.None?
  {
    var title := Trim(ans.title);
    if title == "" then Error(NoTitle)
    else
      var id := OrElse(Trim(ans.id), GenerateId(title));
      var date := OrElse(Trim(ans.date), today);
      var status := OrElse(Trim(ans.status), "draft");
      if !KnownStatus(status) then Error(BadStatus)
      else
        var iconAnswer := Trim(ans.icon);
        Success(Article(
          id := id,
          title := title,
          date := date,
          tags := ParseTags(Trim(ans.tags)),
          excerpt := Trim(ans.excerpt),
          contentFile := ContentFile(date, id),
          status := status,
          readTime := ParseReadTime(Trim(ans.readTime)),
          icon := if iconAnswer == "" then DefaultIcon else "icon-" + iconAnswer + ".svg",
          content := None))
  }

  /** `addArticleToJSON`: a duplicate id is refused; otherwise the record is
      appended and the index re-sorted by date, newest first. */
  function AddToIndex(index: seq<Article>, a: Article): (r: Result<seq<Article>>)
    ensures r.Error? <==> HasId(index, a.id)
    ensures r.Error? ==> r.err == DuplicateId
    ensures r.Success? ==>
      |r.value| == |index| + 1
      && multiset(r.value) == multiset(index) + multiset{a}
      && Sorted(true, r.value)
      && OnDate(r.value, a.date) == OnDate(index, a.date) + [a]
  {
    if HasId(index, a.id) then Error(DuplicateId)
    else
      var s := SortByDate(true, index + [a]);
      assert |s| == |multiset(s)| == |index + [a]|;
      AppendedLandsLast(true, index, a);
      Success(s)
  }

  lemma AddToIndexPreservesUniqueIds(index: seq<Article>, a: Article)
    requires UniqueIds(index)
    ensures AddToIndex(index, a).Success? ==> UniqueIds(AddToIndex(index, a).value)
  {
    if !HasId(index, a.id) {
      UniqueIdsAppend(index, a);
      UniqueIdsPermutation(index + [a], AddToIndex(index, a).value);
    }
  }

  /** Where the tool as written puts the page: `path.join(POSTS_DIR,
      contentFile)`, the posts directory joined with the whole
      `blog/posts/...` path. */
  function NestedWritePath(contentFile: string): string {
    PostsDir + contentFile
  }

  /** The directory a file path lies in: everything before its last `/`,
      and nothing when it has none. */
  function ParentDir(path: string): (d: string)
    ensures '/' in path ==> |d| < |path| && path[..|d|] == d && path[|d|] == '/' && '/' !in path[|d| + 1..]
    ensures '/' !in path ==> d == ""
    decreases |path|
  {
    if path == [] then ""
    else if path[|path| - 1] == '/' then path[..|path| - 1]
    else
      var d := ParentDir(path[..|path| - 1]);
      assert forall c :: c in path <==> c in path[..|path| - 1] || c == path[|path| - 1];
      assert '/' in path ==> path[..|path| - 1][..|d|] == path[..|d|];
      assert '/' in path ==> path[|d| + 1..] == path[..|path| - 1][|d| + 1..] + [path[|path| - 1]];
      d
  }

  /** A file name appended to a directory lies in that directory. */
  lemma {:induction false} ParentDirAppend(dir: string, name: string)
    requires '/' !in name
    ensures ParentDir(dir + "/" + name) == dir
    decreases |name|
  {
    var path := dir + "/" + name;
    if name == [] {
      assert path[..|path| - 1] == dir;
    } else {
      var shorter := name[..|name| - 1];
      assert path[|path| - 1] == name[|name| - 1];
      assert path[..|path| - 1] == dir + "/" + shorter;
      assert '/' !in shorter by {
        assert forall c | c in shorter :: c in name;
      }
      ParentDirAppend(dir, shorter);
    }
  }

  /** The directories `mkdirSync(POSTS_DIR, { recursive: true })` leaves in
      place. */
  const MadeDirs: set<string> := {"blog", "blog/posts"}

  /** The directory the tool as written writes into for a date and id
      without '/': a `blog/posts` inside `blog/posts`, which nothing creates. */
  lemma NestedDirOfRecord(date: string, id: string)
    requires '/' !in date && '/' !in id
    ensures ParentDir(NestedWritePath(ContentFile(date, id))) == "blog/posts/blog/posts"
    ensures ParentDir(NestedWritePath(ContentFile(date, id))) !in MadeDirs
  {
    FileNameNoSlash(date, id);
    assert NestedWritePath(ContentFile(date, id)) == "blog/posts/blog/posts" + "/" + FileName(date, id);
    ParentDirAppend("blog/posts/blog/posts", FileName(date, id));
  }

  /** `createArticleFile` as written: None when the template is missing or
      the nested directory does not exist (either call throws), otherwise
      the files with the rendered page written at the nested path. */
  function WriteNestedPage(env: Env, dirs: set<string>, files: map<string, string>, a: Article): (r: Option<map<string, string>>)
    ensures r.Some? <==> env.template.Some? && ParentDir(NestedWritePath(a.contentFile)) in dirs + MadeDirs
    ensures r.Some? ==>
      var path := NestedWritePath(a.contentFile);
      && path in r.value
      && r.value[path] == RenderPage(env.parse, env.template.value, a)
      && r.value.Keys == files.Keys + {path}
      && (forall q | q in files && q != path :: r.value[q] == files[q])
  {
    match env.template
    case None => None
    case Some(t) =>
      var path := NestedWritePath(a.contentFile);
      if ParentDir(path) !in dirs + MadeDirs then None
      else Some(files[path := RenderPage(env.parse, t, a)])
  }

  /** What `addArticle` does once the record is built, as written, given
      the directories `dirs` that exist beforehand: make the posts
      directory, write the page at the nested path, then add the record to
      the index. Writing into a directory that does not exist throws, and
      the tool exits before touching the index. The page is written before
      the duplicate check, so a duplicate id still overwrites the page
      file. */
  function SaveRecord(env: Env, st: Store, dirs: set<string>, a: Article): (out: (Store, Result<Article>))
    ensures env.template.None? ==> out == (st, Error(NoTemplate))
    ensures env.template.Some? && ParentDir(NestedWritePath(a.contentFile)) !in dirs + MadeDirs ==>
      out == (st, Error(WriteFailed))
    ensures env.template.Some? && ParentDir(NestedWritePath(a.contentFile)) in dirs + MadeDirs ==>
      && Some(out.0.files) == WriteNestedPage(env, dirs, st.files, a)
      && (out.1 == Error(DuplicateId) <==> HasId(st.index, a.id))
      && (out.1.Error? ==> out.0.index == st.index)
      && (out.1.Success? ==> out.1.value == a && Success(out.0.index) == AddToIndex(st.index, a))
  {
    if env.template.None? then (st, Error(NoTemplate))
    else
      match WriteNestedPage(env, dirs, st.files, a)
      case None => (st, Error(WriteFailed))
      case Some(files) =>
        match AddToIndex(st.index, a)
        case Error(e) => (Store(st.index, files), Error(e))
        case Success(index) => (Store(index, files), Success(a))
  }

  /** `addArticle` as written: a missing title or an unknown status fails
      before anything is written; otherwise the built record is saved. The
      page gets the header substitutions only: the tool sends no body. */
  function AddArticle(env: Env, st: Store, dirs: set<string>, ans: Answers): (out: (Store, Result<Article>))
    ensures out.1 == Error(NoTitle) <==> Trim(ans.title) == ""
    ensures out.1 == Error(BadStatus) <==> Trim(ans.title) != "" && !KnownStatus(OrElse(Trim(ans.status), "draft"))
    ensures out.1.Error? ==> out.0.index == st.index
    ensures env.template.None? ==> out.0 == st && out.1.Error?
    ensures out.1.Success? ==>
      && out.1.value in out.0.index
      && |out.0.index| == |st.index| + 1
      && !HasId(st.index, out.1.value.id)
    ensures var date := OrElse(Trim(ans.date), env.today);
      var id := OrElse(Trim(ans.id), GenerateId(Trim(ans.title)));
      env.template.Some? && '/' !in date && '/' !in id && "blog/posts/blog/posts" !in dirs ==>
        out.0 == st && out.1.Error?
  {
    match BuildRecord(env.today, ans)
    case Error(e) => (st, Error(e))
    case Success(a) =>
      SaveOutcome(env, st, dirs, a);
      SaveRecord(env, st, dirs, a)
  }

  /** What the as-written save step gives, in the terms of `AddArticle`. */
  lemma SaveOutcome(env: Env, st: Store, dirs: set<string>, a: Article)
    ensures var out := SaveRecord(env, st, dirs, a);
      && out.1 != Error(NoTitle) && out.1 != Error(BadStatus)
      && (out.1.Error? ==> out.0.index == st.index)
      && (env.template.None? ==> out.0 == st && out.1.Error?)
    ensures var out := SaveRecord(env, st, dirs, a);
      out.1.Success? ==> out.1.value == a && a in out.0.index && |out.0.index| == |st.index| + 1 && !HasId(st.index, a.id)
    ensures (env.template.Some? && a.contentFile == ContentFile(a.date, a.id) && '/' !in a.date && '/' !in a.id
      && "blog/posts/blog/posts" !in dirs) ==> SaveRecord(env, st, dirs, a) == (st, Error(WriteFailed))
  {
    if env.template.Some? && a.contentFile == ContentFile(a.date, a.id) && '/' !in a.date && '/' !in a.id
      && "blog/posts/blog/posts" !in dirs {
      SaveFailsAsWritten(env, st, dirs, a);
    }
    SavedRecordIsIndexed(st, SaveRecord(env, st, dirs, a), a);
  }

  /** With the directories the tool creates, and no `blog/posts/blog/posts`
      made by hand, a record whose date and id hold no '/' fails at the
      write and leaves the page files and the index as they were. */
  lemma SaveFailsAsWritten(env: Env, st: Store, dirs: set<string>, a: Article)
    requires env.template.Some? && a.contentFile == ContentFile(a.date, a.id)
    requires '/' !in a.date && '/' !in a.id
    requires "blog/posts/blog/posts" !in dirs
    ensures SaveRecord(env, st, dirs, a) == (st, Error(WriteFailed))
  {
    NestedDirOfRecord(a.date, a.id);
  }

  /** Either save step's success result: the record is the one saved, it
      is new, and the index gains it. */
  lemma SavedRecordIsIndexed(st: Store, out: (Store, Result<Article>), a: Article)
    requires out.1.Success? ==> out.1.value == a && Success(out.0.index) == AddToIndex(st.index, a)
    ensures out.1.Success? ==>
      && a in out.0.index
      && |out.0.index| == |st.index| + 1
      && !HasId(st.index, a.id)
  {
    if out.1.Success? {
      assert a in multiset(out.0.index);
    }
  }

  /** Where the nested directory does exist, a duplicate id rewrites the
      page there and only then fails; the server checks for a duplicate
      first. */
  lemma DuplicateStillOverwrites(env: Env, st: Store, dirs: set<string>, a: Article)
    requires env.template.Some? && HasId(st.index, a.id)
    requires ParentDir(NestedWritePath(a.contentFile)) in dirs
    ensures var (st', r) := SaveRecord(env, st, dirs, a);
      && r == Error(DuplicateId)
      && st'.index == st.index
      && NestedWritePath(a.contentFile) in st'.files
      && st'.files[NestedWritePath(a.contentFile)] == RenderPage(env.parse, env.template.value, a)
  {
  }

  /** The save step with the page written where the server writes it,
      into the posts directory the tool creates. */
  function SaveRecordCorrected(env: Env, st: Store, a: Article): (out: (Store, Result<Article>))
    ensures env.template.None? ==> out == (st, Error(NoTemplate))
    ensures env.template.Some? ==>
      && Some(out.0.files) == WritePage(env, st.files, a)
      && (out.1 == Error(DuplicateId) <==> HasId(st.index, a.id))
      && (out.1.Error? ==> out.0.index == st.index)
      && (out.1.Success? ==> out.1.value == a && Success(out.0.index) == AddToIndex(st.index, a))
  {
    match WritePage(env, st.files, a)
    case None => (st, Error(NoTemplate))
    case Some(files) =>
      match AddToIndex(st.index, a)
      case Error(e) => (Store(st.index, files), Error(e))
      case Success(index) => (Store(index, files), Success(a))
  }

  /** `addArticle` with the corrected save step. */
  function AddArticleCorrected(env: Env, st: Store, ans: Answers): (out: (Store, Result<Article>))
    ensures out.1 == Error(NoTitle) <==> Trim(ans.title) == ""
    ensures out.1 == Error(BadStatus) <==> Trim(ans.title) != "" && !KnownStatus(OrElse(Trim(ans.status), "draft"))
    ensures out.1.Error? ==> out.0.index == st.index
    ensures env.template.None? ==> out.0 == st && out.1.Error?
    ensures out.1.Success? ==>
      && out.1.value in out.0.index
      && |out.0.index| == |st.index| + 1
      && !HasId(st.index, out.1.value.id)
    ensures var date := OrElse(Trim(ans.date), env.today);
      var id := OrElse(Trim(ans.id), GenerateId(Trim(ans.title)));
      && env.template.Some? && '/' !in date && '/' !in id && !HasId(st.index, id)
      && Trim(ans.title) != "" && KnownStatus(OrElse(Trim(ans.status), "draft")) ==>
        && out.1.Success?
        && out.1.value.id == id
        && out.1.value.contentFile == ContentFile(date, id)
        && out.1.value.contentFile in out.0.files
        && out.0.files[out.1.value.contentFile] == RenderPage(env.parse, env.template.value, out.1.value)
  {
    match BuildRecord(env.today, ans)
    case Error(e) => (st, Error(e))
    case Success(a) =>
      SaveCorrectedOutcome(env, st, a);
      SaveRecordCorrected(env, st, a)
  }

  /** What the corrected save step gives, in the terms of
      `AddArticleCorrected`. */
  lemma SaveCorrectedOutcome(env: Env, st: Store, a: Article)
    ensures var out := SaveRecordCorrected(env, st, a);
      && out.1 != Error(NoTitle) && out.1 != Error(BadStatus)
      && (out.1.Error? ==> out.0.index == st.index)
      && (env.template.None? ==> out.0 == st && out.1.Error?)
    ensures var out := SaveRecordCorrected(env, st, a);
      out.1.Success? ==> out.1.value == a && a in out.0.index && |out.0.index| == |st.index| + 1 && !HasId(st.index, a.id)
    ensures var out := SaveRecordCorrected(env, st, a);
      (env.template.Some? && a.contentFile == ContentFile(a.date, a.id) && '/' !in a.date && '/' !in a.id
      && !HasId(st.index, a.id)) ==>
        && out.1 == Success(a)
        && a.contentFile in out.0.files
        && out.0.files[a.contentFile] == RenderPage(env.parse, env.template.value, a)
  {
    if env.template.Some? && a.contentFile == ContentFile(a.date, a.id) && '/' !in a.date && '/' !in a.id
      && !HasId(st.index, a.id) {
      CorrectedSavesRecord(env, st, a);
    }
    SavedRecordIsIndexed(st, SaveRecordCorrected(env, st, a), a);
  }

  /** The corrected save step adds a record with a new id whose date and
      id hold no '/', and its page is the one the record points to. */
  lemma CorrectedSavesRecord(env: Env, st: Store, a: Article)
    requires env.template.Some? && a.contentFile == ContentFile(a.date, a.id)
    requires '/' !in a.date && '/' !in a.id
    requires !HasId(st.index, a.id)
    ensures var (st', r) := SaveRecordCorrected(env, st, a);
      && r == Success(a)
      && a in st'.index
      && a.contentFile in st'.files
      && st'.files[a.contentFile] == RenderPage(env.parse, env.template.value, a)
  {
    WritePathIsContentFile(a.date, a.id);
    var s := AddToIndex(st.index, a).value;
    assert a in multiset(s);
  }

  /** As written, the page never lands where the record points: the path
      repeats `blog/posts/`. */
  lemma NestedWritePathMisses(date: string, id: string)
    ensures NestedWritePath(ContentFile(date, id)) != ContentFile(date, id)
    ensures NestedWritePath(ContentFile(date, id)) == "blog/posts/blog/posts/" + FileName(date, id)
  {
    assert |NestedWritePath(ContentFile(date, id))| > |ContentFile(date, id)|;
  }

  /** With the server's rule, the page the tool writes is the one the record
      points to. */
  lemma CorrectedPathIsContentFile(today: string, ans: Answers)
    requires BuildRecord(today, ans).Success?
    requires '/' !in BuildRecord(today, ans).value.date && '/' !in BuildRecord(today, ans).value.id
    ensures var a := BuildRecord(today, ans).value;
      WritePath(a.contentFile) == a.contentFile
  {
    var a := BuildRecord(today, ans).value;
    WritePathIsContentFile(a.date, a.id);
  }
}
