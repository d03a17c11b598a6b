/** The article endpoints of the API server as transformations of an
    in-memory store: the index `blog/articles.json` and the files on disk,
    keyed by their path relative to the site root. Reading the template, the
    current date and date parsing come from the environment. */
module Server {
  import opened Options
  import opened Strings
  import opened Seqs
  import opened Slug
  import opened Dates
  import opened Articles
  import opened Template

  datatype Store = Store(index: seq<Article>, files: map<string, string>)

  /** `template` is the contents of `blog/post-template.html` (None when the
      file is missing); `today` is `new Date().toISOString().split('T')[0]`. */
  datatype Env = Env(template: Option<string>, today: string, parse: DateParser)

  /** A JSON reply: success with a payload, or an HTTP error status. */
  datatype Reply<T> = Ok(value: T) | Fail(code: int)

  const PostsDir := "blog/posts/"
  const DefaultIcon := "icon-brain.svg"
  const Placeholder := "<p><strong>Статья в разработке.</strong></p>"

  /** A request field JavaScript treats as true: present and not "". */
  predicate Truthy(v: Option<string>) {
    v.Some? && v.value != ""
  }

  /** `v || d` on a string field. */
  function Or(v: Option<string>, d: string): (r: string)
    ensures Truthy(v) ==> r == v.value
    ensures !Truthy(v) ==> r == d
  {
    if Truthy(v) then v.value else d
  }

  /** `"blog/posts/" + fileName` with `fileName = "{date}-{id}.html"`. */
  function ContentFile(date: string, id: string): string {
    PostsDir + FileName(date, id)
  }

  function FileName(date: string, id: string): string {
    date + "-" + id + ".html"
  }

  /** `path.split('/').pop()`. */
  function LastSegment(path: string): (r: string)
    ensures '/' !in r
  {
    var parts := Split(path, '/');
    parts[|parts| - 1]
  }

  /** Where `createArticleFile` writes: the posts directory joined with the
      last segment of the record's `contentFile`. */
  function WritePath(contentFile: string): string {
    PostsDir + LastSegment(contentFile)
  }

  /** For a date and id without '/', the page is written exactly where the
      record's `contentFile` points. */
  lemma WritePathIsContentFile(date: string, id: string)
    requires '/' !in date && '/' !in id
    ensures WritePath(ContentFile(date, id)) == ContentFile(date, id)
  {
    var name := FileName(date, id);
    FileNameNoSlash(date, id);
    PostsPathJoin(name);
    LastOfPostsPath(name);
  }

  lemma FileNameNoSlash(date: string, id: string)
    requires '/' !in date && '/' !in id
    ensures '/' !in FileName(date, id)
  {
    var name := FileName(date, id);
    assert forall i | 0 <= i < |name| :: name[i] in date || name[i] in id || name[i] in "-.html";
  }

  lemma PostsPathJoin(name: string)
    ensures PostsDir + name == Join(["blog", "posts", name], "/")
  {
    assert ["blog", "posts", name][1..] == ["posts", name];
    assert Join(["posts", name], "/") == "posts" + "/" + name;
    assert PostsDir == "blog" + "/" + "posts" + "/";
  }

  lemma LastOfPostsPath(name: string)
    requires '/' !in name
    ensures LastSegment(Join(["blog", "posts", name], "/")) == name
  {
    SplitJoin(["blog", "posts", name], '/');
  }

  /** `createArticleFile(a)`: None when the template is missing (the call
      throws), otherwise the files with the rendered page written. */
  function WritePage(env: Env, files: map<string, string>, a: Article): (r: Option<map<string, string>>)
    ensures r.Some? <==> env.template.Some?
    ensures r.Some? ==>
      WritePath(a.contentFile) in r.value
      && r.value[WritePath(a.contentFile)] == RenderPage(env.parse, env.template.value, a)
    ensures r.Some? ==> forall p | p in files && p != WritePath(a.contentFile) :: p in r.value && r.value[p] == files[p]
    ensures r.Some? ==> r.value.Keys == files.Keys + {WritePath(a.contentFile)}
  {
    match env.template
    case None => None
    case Some(t) => Some(files[WritePath(a.contentFile) := RenderPage(env.parse, t, a)])
  }

  /** The body of `POST /api/articles`; absent fields are None. */
  datatype CreateRequest = CreateRequest(
    title: Option<string>,
    date: Option<string>,
    tags: Option<seq<string>>,
    excerpt: Option<string>,
    content: Option<string>,
    status: Option<string>,
    readTime: Option<int>,
    icon: Option<string>)

  /** The record `POST` builds, with the defaults of `||`. */
  function NewRecord(env: Env, req: CreateRequest, title: string): (a: Article)
    ensures a.id == GenerateId(title) && a.title == title
    ensures a.date == Or(req.date, env.today)
    ensures a.contentFile == ContentFile(a.date, a.id)
    ensures a.content.Some? && a.content.value != ""
    ensures !Truthy(req.date) ==> a.date == env.today
    ensures req.tags.None? ==> a.tags == []
    ensures !Truthy(req.excerpt) ==> a.excerpt == ""
    ensures !Truthy(req.status) ==> a.status == "draft"
    ensures (req.readTime.None? || req.readTime == Some(0)) ==> a.readTime == 5
    ensures !Truthy(req.icon) ==> a.icon == DefaultIcon
    ensures !Truthy(req.content) ==> a.content == Some(Placeholder)
    ensures Truthy(req.date) ==> a.date == req.date.value
    ensures req.tags.Some? ==> a.tags == req.tags.value
    ensures Truthy(req.excerpt) ==> a.excerpt == req.excerpt.value
    ensures Truthy(req.status) ==> a.status == req.status.value
    ensures req.readTime.Some? && req.readTime.value != 0 ==> a.readTime == req.readTime.value
    ensures Truthy(req.icon) ==> a.icon == req.icon.value
    ensures Truthy(req.content) ==> a.content == req.content
  {
    var id := GenerateId(title);
    var date := Or(req.date, env.today);
    Article(
      id := id,
      title := title,
      date := date,
      tags := req.tags.GetOr([]),
      excerpt := Or(req.excerpt, ""),
      contentFile := ContentFile(date, id),
      status := Or(req.status, "draft"),
      readTime := if req.readTime.Some? && req.readTime.value != 0 then req.readTime.value else 5,
      icon := Or(req.icon, DefaultIcon),
      content := Some(Or(req.content, Placeholder)))
  }

  /** `POST /api/articles`: 400 without a title or for an id already in the
      index, 500 when the template is missing; otherwise the page is written
      and the record is appended and the index re-sorted by date,
      newest first. */
  function Create(env: Env, st: Store, req: CreateRequest): (out: (Store, Reply<Article>))
    ensures out.1.Fail? ==> out.0 == st
    ensures out.1 == Fail(400) <==> !Truthy(req.title) || HasId(st.index, GenerateId(req.title.value))
    ensures out.1 == Fail(500) <==>
      Truthy(req.title) && !HasId(st.index, GenerateId(req.title.value)) && env.template.None?
    ensures out.1.Ok? ==> out.1.value == NewRecord(env, req, req.title.value)
    ensures out.1.Ok? ==> WritePage(env, st.files, out.1.value) == Some(out.0.files)
    ensures out.1.Ok? ==>
      |out.0.index| == |st.index| + 1
      && multiset(out.0.index) == multiset(st.index) + multiset{out.1.value}
      && Sorted(true, out.0.index)
  {
    if !Truthy(req.title) then (st, Fail(400))
    else
      var a := NewRecord(env, req, req.title.value);
      if HasId(st.index, a.id) then (st, Fail(400))
      else
        match WritePage(env, st.files, a)
        case None => (st, Fail(500))
        case Some(files) =>
          var index := SortByDate(true, st.index + [a]);
          assert |index| == |multiset(index)| == |st.index + [a]|;
          (Store(index, files), Ok(a))
  }

  /** The new record comes after every existing record with the same date. */
  lemma CreateLandsAfterSameDate(env: Env, st: Store, req: CreateRequest)
    requires Create(env, st, req).1.Ok?
    ensures var a := Create(env, st, req).1.value;
      OnDate(Create(env, st, req).0.index, a.date) == OnDate(st.index, a.date) + [a]
  {
    var a := Create(env, st, req).1.value;
    AppendedLandsLast(true, st.index, a);
  }

  /** Creation never introduces a second record with the same id. */
  lemma CreatePreservesUniqueIds(env: Env, st: Store, req: CreateRequest)
    requires UniqueIds(st.index)
    ensures UniqueIds(Create(env, st, req).0.index)
  {
    var (st', r) := Create(env, st, req);
    if r.Ok? {
      UniqueIdsAppend(st.index, r.value);
      UniqueIdsPermutation(st.index + [r.value], st'.index);
    }
  }

  /** `GET /api/articles`: the records, filtered by status when a status is
      given, with their count. */
  function List(st: Store, status: Option<string>): (r: (seq<Article>, int))
    ensures r.1 == |r.0|
    ensures IsSubseq(r.0, st.index)
    ensures !Truthy(status) ==> r.0 == st.index
    ensures Truthy(status) ==> forall i | 0 <= i < |r.0| :: r.0[i].status == status.value
    ensures Truthy(status) ==> forall i | 0 <= i < |st.index| ::
      st.index[i] in r.0 <==> st.index[i].status == status.value
  {
    if Truthy(status) then
      var p := (a: Article) => a.status == status.value;
      FilterIsSubseq(p, st.index);
      var l := Filter(p, st.index);
      (l, |l|)
    else
      SubseqRefl(st.index);
      (st.index, |st.index|)
  }

  /** The body a stored page gives back: the trimmed content of its article
      body block, or "" when the file or the block is missing. */
  function StoredBody(files: map<string, string>, path: string): string {
    if path in files then ExtractBody(files[path]) else ""
  }

  /** `GET /api/articles/:id`: the first record with that id, its content
      read from its page; 404 when there is none. */
  function Get(st: Store, id: string): (r: Reply<Article>)
    ensures r.Fail? <==> !HasId(st.index, id)
    ensures r.Fail? ==> r.code == 404
    ensures r.Ok? ==> exists k | 0 <= k < |st.index| ::
      && st.index[k].id == id
      && (forall j | 0 <= j < k :: st.index[j].id != id)
      && r.value == st.index[k].(content := Some(StoredBody(st.files, st.index[k].contentFile)))
  {
    match FindById(st.index, id)
    case None => Fail(404)
    case Some(k) =>
      var a := st.index[k];
      Ok(a.(content := Some(StoredBody(st.files, a.contentFile))))
  }

  /** Create, then read the record back: the same record, whose content is
      the submitted body trimmed, provided the body contains no `</div>`, the
      date no '/', and the rendered header still has its body block. */
  lemma CreateThenGet(env: Env, st: Store, req: CreateRequest)
    requires UniqueIds(st.index)
    requires Create(env, st, req).1.Ok?
    requires var a := Create(env, st, req).1.value;
      '/' !in a.date
      && FirstMatch(BodyBlock, RenderHead(env.parse, env.template.value, a)).Some?
      && !Contains(a.content.value, "</div>")
    ensures var a := Create(env, st, req).1.value;
      Get(Create(env, st, req).0, a.id) == Ok(a.(content := Some(Trim(a.content.value))))
  {
    var (st', r) := Create(env, st, req);
    var a := r.value;
    PageAtContentFile(env, st.files, a, st'.files);
    ExtractSubstituted(RenderHead(env.parse, env.template.value, a), a.content.value);
    CreatePreservesUniqueIds(env, st, req);
    assert a in multiset(st'.index);
    var k :| 0 <= k < |st'.index| && st'.index[k] == a;
    GetUnique(st', k);
  }

  /** The created page sits at the record's `contentFile`, when its date has
      no '/'. */
  lemma PageAtContentFile(env: Env, files: map<string, string>, a: Article, files': map<string, string>)
    requires WritePage(env, files, a) == Some(files')
    requires '/' !in a.date && SlugAlphabet(a.id) && a.contentFile == ContentFile(a.date, a.id)
    ensures a.contentFile in files'
    ensures files'[a.contentFile] == RenderPage(env.parse, env.template.value, a)
  {
    assert '/' !in a.id by {
      assert forall i | 0 <= i < |a.id| :: IsSlugChar(a.id[i]);
    }
    WritePathIsContentFile(a.date, a.id);
  }

  /** With unique ids, reading a record by its id finds that record. */
  lemma GetUnique(st: Store, k: nat)
    requires UniqueIds(st.index) && k < |st.index|
    ensures var a := st.index[k];
      Get(st, a.id) == Ok(a.(content := Some(StoredBody(st.files, a.contentFile))))
  {
    FindByIdUnique(st.index, st.index[k].id, k);
  }

  /** The fields a `PUT` body may carry; absent fields are None. */
  datatype Changes = Changes(
    title: Option<string>,
    date: Option<string>,
    tags: Option<seq<string>>,
    excerpt: Option<string>,
    status: Option<string>,
    readTime: Option<int>,
    icon: Option<string>,
    content: Option<string>)

  /** `{ ...existing, ...updates, id, contentFile }`: every field present in
      the update wins, except `id` and `contentFile`, which never change. */
  function Merge(a: Article, ch: Changes): (r: Article)
    ensures r.id == a.id && r.contentFile == a.contentFile
    ensures ch == Changes(None, None, None, None, None, None, None, None) ==> r == a
    ensures r.title == (if ch.title.Some? then ch.title.value else a.title)
    ensures r.date == (if ch.date.Some? then ch.date.value else a.date)
    ensures r.tags == (if ch.tags.Some? then ch.tags.value else a.tags)
    ensures r.excerpt == (if ch.excerpt.Some? then ch.excerpt.value else a.excerpt)
    ensures r.status == (if ch.status.Some? then ch.status.value else a.status)
    ensures r.readTime == (if ch.readTime.Some? then ch.readTime.value else a.readTime)
    ensures r.icon == (if ch.icon.Some? then ch.icon.value else a.icon)
    ensures r.content == (if ch.content.Some? then ch.content else a.content)
  {
    Article(
      id := a.id,
      title := ch.title.GetOr(a.title),
      date := ch.date.GetOr(a.date),
      tags := ch.tags.GetOr(a.tags),
      excerpt := ch.excerpt.GetOr(a.excerpt),
      contentFile := a.contentFile,
      status := ch.status.GetOr(a.status),
      readTime := ch.readTime.GetOr(a.readTime),
      icon := ch.icon.GetOr(a.icon),
      content := if ch.content.Some? then ch.content else a.content)
  }

  /** Applying the same update twice is applying it once. */
  lemma MergeIdempotent(a: Article, ch: Changes)
    ensures Merge(Merge(a, ch), ch) == Merge(a, ch)
  {
  }

  /** The page is rewritten when the body is sent at all, or when a truthy
      title, date, tag list or read time is sent. */
  predicate NeedsRewrite(ch: Changes) {
    || ch.content.Some?
    || Truthy(ch.title) || Truthy(ch.date) || ch.tags.Some?
    || (ch.readTime.Some? && ch.readTime.value != 0)
  }

  /** `PUT /api/articles/:id`: 404 for an unknown id; otherwise the first
      record with that id is replaced in place by the merged record, the page
      rewritten when needed (500 if the template is then missing), and the
      index is not re-sorted. */
  function Update(env: Env, st: Store, id: string, ch: Changes): (out: (Store, Reply<Article>))
    ensures out.1.Fail? ==> out.0 == st
    ensures out.1 == Fail(404) <==> !HasId(st.index, id)
    ensures out.1 == Fail(500) <==> HasId(st.index, id) && NeedsRewrite(ch) && env.template.None?
    ensures out.1.Ok? ==> exists k | 0 <= k < |st.index| ::
      && st.index[k].id == id
      && (forall j | 0 <= j < k :: st.index[j].id != id)
      && out.1.value == Merge(st.index[k], ch)
      && out.0.index == st.index[k := out.1.value]
    ensures out.1.Ok? && !NeedsRewrite(ch) ==> out.0.files == st.files
    ensures out.1.Ok? && NeedsRewrite(ch) ==>
      out.0.files == st.files[WritePath(out.1.value.contentFile) := RenderPage(env.parse, env.template.value, out.1.value)]
  {
    match FindById(st.index, id)
    case None => (st, Fail(404))
    case Some(k) =>
      var a := Merge(st.index[k], ch);
      if !NeedsRewrite(ch) then (Store(st.index[k := a], st.files), Ok(a))
      else
        match WritePage(env, st.files, a)
        case None => (st, Fail(500))
        case Some(files) => (Store(st.index[k := a], files), Ok(a))
  }

  /** An update touches one record: the others, and the order, stay. */
  lemma UpdateTouchesOneRecord(env: Env, st: Store, id: string, ch: Changes)
    requires UniqueIds(st.index)
    ensures var st' := Update(env, st, id, ch).0;
      && |st'.index| == |st.index|
      && UniqueIds(st'.index)
      && forall j | 0 <= j < |st.index| && st.index[j].id != id :: st'.index[j] == st.index[j]
  {
    var (st', r) := Update(env, st, id, ch);
    if r.Ok? {
      var k := FindById(st.index, id).value;
      UniqueIdsReplace(st.index, k, r.value);
    }
  }

  /** `DELETE /api/articles/:id`: 404 for an unknown id; otherwise the first
      record with that id leaves the index, the others keep their order, and
      its page is removed. */
  function Delete(st: Store, id: string): (out: (Store, Reply<()>))
    ensures out.1.Fail? ==> out.0 == st
    ensures out.1 == Fail(404) <==> !HasId(st.index, id)
    ensures out.1.Ok? ==> exists k | 0 <= k < |st.index| ::
      && st.index[k].id == id
      && (forall j | 0 <= j < k :: st.index[j].id != id)
      && out.0.index == st.index[..k] + st.index[k + 1..]
      && out.0.files == st.files - {st.index[k].contentFile}
  {
    match FindById(st.index, id)
    case None => (st, Fail(404))
    case Some(k) =>
      (Store(st.index[..k] + st.index[k + 1..], st.files - {st.index[k].contentFile}), Ok(()))
  }

  /** With unique ids, a deleted record is gone: reading it gives 404, and
      ids stay unique. */
  lemma DeleteThenGet(st: Store, id: string)
    requires UniqueIds(st.index)
    ensures Get(Delete(st, id).0, id) == Fail(404)
    ensures UniqueIds(Delete(st, id).0.index)
  {
    if HasId(st.index, id) {
      var k := FindById(st.index, id).value;
      UniqueIdsRemove(st.index, k);
      RemovedIdGone(st.index, k, id);
    }
  }

  /** Removing the one record with an id leaves none with it. */
  lemma RemovedIdGone(s: seq<Article>, k: nat, id: string)
    requires UniqueIds(s) && k < |s| && s[k].id == id
    ensures !HasId(s[..k] + s[k + 1..], id)
  {
    var r := s[..k] + s[k + 1..];
    assert forall i | 0 <= i < |r| :: r[i] == s[if i < k then i else i + 1];
  }

  /** Deleting keeps the other records in their relative order. */
  lemma DeleteKeepsOrder(st: Store, id: string)
    ensures IsSubseq(Delete(st, id).0.index, st.index)
  {
    var (st', r) := Delete(st, id);
    if r.Ok? {
      var k := FindById(st.index, id).value;
      DropOneIsSubseq(st.index, k);
    } else {
      SubseqRefl(st.index);
    }
  }
}
