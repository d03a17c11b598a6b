/** `scripts/validate-blog.js`: the rules that turn a parsed
    `blog/articles.json` and the files present on disk into lists of errors
    and warnings, and the exit status that follows from them.

    The parsed JSON is a `Json` value. A JavaScript `TypeError` the script
    does not catch (a property read on `null`, `in` on a primitive,
    `path.join` on a non-string, `forEach` on a non-array) ends the run; it
    is modelled as a None result, and the process then exits with status 1. */
module Validator {
  import opened Options
  import opened Strings
  import opened Seqs
  import opened Slug
  import opened Dates
  import opened Template

  /** A JSON value; numbers are integers. */
  datatype Json =
    | JNull
    | JBool(b: bool)
    | JNum(n: int)
    | JStr(s: string)
    | JArr(items: seq<Json>)
    | JObj(fields: map<string, Json>)

  /** JavaScript truthiness of a property value; None is `undefined`. */
  predicate Truthy(v: Option<Json>) {
    match v
    case None => false
    case Some(j) =>
      match j
      case JNull => false
      case JBool(b) => b
      case JNum(n) => n != 0
      case JStr(s) => s != ""
      case _ => true
  }

  /** `String(v)`: what a regular expression test sees. An array prints its
      elements joined with commas, null elements as nothing. */
  function JsString(j: Json): string
    decreases j
  {
    match j
    case JNull => "null"
    case JBool(b) => if b then "true" else "false"
    case JNum(n) => IntToString(n)
    case JStr(s) => s
    case JArr(items) =>
      Join(seq(|items|, k requires 0 <= k < |items| =>
        if items[k] == JNull then "" else JsString(items[k])), ",")
    case JObj(_) => "[object Object]"
  }

  /** A JavaScript string's `length`: the number of UTF-16 code units, so a
      character outside the Basic Multilingual Plane counts twice. */
  function Utf16Length(s: string): (n: nat)
    ensures |s| <= n <= 2 * |s|
    ensures n == |s| <==> forall k | 0 <= k < |s| :: s[k] as int < 0x1_0000
  {
    if s == [] then 0
    else
      var rest := Utf16Length(s[1..]);
      assert forall k | 1 <= k < |s| :: s[k] == s[1..][k - 1];
      (if s[0] as int < 0x1_0000 then 1 else 2) + rest
  }

  /** `Number(v)`, which a comparison with a number applies to `v`; None
      stands for `NaN`. An array reads as the string its elements join to:
      the empty array is 0, one element reads as that element's text, and
      two or more hold a comma. */
  function NumberOf(j: Json): Option<int>
    decreases j
  {
    match j
    case JNull => Some(0)
    case JBool(b) => Some(if b then 1 else 0)
    case JNum(n) => Some(n)
    case JStr(s) => StringToNumber(s)
    case JArr(items) =>
      if |items| == 0 then Some(0)
      else if |items| == 1 && !items[0].JBool? then NumberOf(items[0])
      else None
    case JObj(_) => None
  }

  /** Apart from `null` and booleans, a value converts to the number its
      text `String(v)` reads as. */
  lemma {:induction false} NumberOfIsNumberOfText(j: Json)
    requires !j.JNull? && !j.JBool?
    ensures NumberOf(j) == StringToNumber(JsString(j))
    decreases j
  {
    match j
    case JNum(n) =>
      StringToNumberToString(n);
    case JStr(_) =>
    case JArr(items) =>
      if |items| == 0 {
        EmptyArrayText(items);
      } else if |items| == 1 {
        var x := items[0];
        SingletonText(items);
        if x.JNull? {
          EmptyTextIsZero();
        } else if x.JBool? {
          BooleanTextIsNaN(x.b);
        } else {
          NumberOfIsNumberOfText(x);
        }
      } else {
        LongArrayTextIsNaN(items);
      }
    case JObj(fs) =>
      ObjectTextIsNaN(fs);
  }

  lemma ObjectTextIsNaN(fs: map<string, Json>)
    ensures StringToNumber(JsString(JObj(fs))) == None
  {
    var s := "[object Object]";
    assert Trimmed(s);
    WordIsNaN(s);
  }

  lemma EmptyTextIsZero()
    ensures StringToNumber("") == Some(0)
  {
    assert Trim("") == "";
  }

  lemma EmptyArrayText(items: seq<Json>)
    requires |items| == 0
    ensures StringToNumber(JsString(JArr(items))) == Some(0)
  {
    EmptyTextIsZero();
  }

  lemma SingletonText(items: seq<Json>)
    requires |items| == 1
    ensures JsString(JArr(items)) == if items[0] == JNull then "" else JsString(items[0])
  {
  }

  lemma LongArrayTextIsNaN(items: seq<Json>)
    requires |items| >= 2
    ensures StringToNumber(JsString(JArr(items))) == None
  {
    var texts := seq(|items|, k requires 0 <= k < |items| =>
      if items[k] == JNull then "" else JsString(items[k]));
    var s := JsString(JArr(items));
    assert s == texts[0] + "," + Join(texts[1..], ",");
    assert s[|texts[0]|] == ',';
    CommaIsNaN(s);
  }

  lemma BooleanTextIsNaN(b: bool)
    ensures StringToNumber(if b then "true" else "false") == None
  {
    var s := if b then "true" else "false";
    assert Trimmed(s);
    WordIsNaN(s);
  }

  /** `v.length` as the excerpt checks compare it: the UTF-16 length of a
      string, the element count of an array, and an object's own `length`
      property converted to a number; anything else is `undefined`. */
  function LengthOf(j: Json): Option<int> {
    match j
    case JStr(s) => Some(Utf16Length(s))
    case JArr(items) => Some(|items|)
    case JObj(fs) => if "length" in fs then NumberOf(fs["length"]) else None
    case _ => None
  }

  /** An excerpt object's `length` is converted before the comparisons:
      the text of an integer reads as that integer, `null` as 0 and `true`
      as 1. */
  lemma ObjectLengthConverted(n: int)
    ensures LengthOf(JObj(map["length" := JStr(IntToString(n))])) == Some(n)
    ensures LengthOf(JObj(map["length" := JNull])) == Some(0)
    ensures LengthOf(JObj(map["length" := JBool(true)])) == Some(1)
  {
    StringToNumberToString(n);
  }

  /** `o.key` on an object or array parsed from JSON (arrays have no named
      properties of interest here). */
  function Prop(o: Json, key: string): Option<Json> {
    match o
    case JObj(fs) => if key in fs then Some(fs[key]) else None
    case _ => None
  }

  /** Values compared by content in a `Set`; objects and arrays compare by
      identity, and every parsed one is a distinct object. */
  predicate Primitive(j: Json) {
    j.JBool? || j.JNum? || j.JStr? || j.JNull?
  }

  /** What can be wrong with one article. */
  datatype Problem =
    | MissingField(field: string)
    | DuplicateId
    | BadDateFormat
    | InvalidDate
    | TagsNotArray
    | BadStatus
    | MissingFile

  /** What is advised against in one article. */
  datatype Advice = IdNotSlug | NoTags | ExcerptTooLong | ExcerptTooShort | BadReadTime

  datatype Error =
    | NoArticleArray
    | InArticle(article: nat, problem: Problem)
    | FileNotFound(path: string)
    | IdMismatch(expected: Option<Json>, found: string)

  datatype Warning =
    | ForArticle(article: nat, advice: Advice)
    | NoIdMeta(path: string)

  /** Errors and warnings, each in the order they are pushed. */
  datatype Report = Report(errors: seq<Error>, warnings: seq<Warning>)

  const RequiredFields: seq<string> :=
    ["id", "title", "date", "tags", "excerpt", "contentFile", "status", "readTime", "icon"]

  /** `[x]` when `c` holds, nothing otherwise. */
  function Flag<T>(c: bool, x: T): (r: seq<T>)
    ensures x in r <==> c
    ensures forall k | 0 <= k < |r| :: r[k] == x
  {
    if c then [x] else []
  }

  /** One `MissingField` per name of `names` absent from `keys`, in the
      order of `names`. */
  function MissingFrom(keys: set<string>, names: seq<string>): (r: seq<Problem>)
    ensures forall k | 0 <= k < |r| :: r[k].MissingField?
    ensures forall f :: MissingField(f) in r <==> f in names && f !in keys
  {
    if names == [] then []
    else
      var rest := MissingFrom(keys, names[1..]);
      assert forall f :: f in names <==> f == names[0] || f in names[1..];
      if names[0] in keys then rest else [MissingField(names[0])] + rest
  }

  /** The property names `in` finds on an article. */
  function Keys(a: Json): set<string> {
    if a.JObj? then a.fields.Keys else {}
  }

  /** `/^[a-z0-9-]+$/`. */
  predicate IsSlug(s: string) {
    s != [] && SlugAlphabet(s)
  }

  predicate KnownStatus(v: Json) {
    v == JStr("published") || v == JStr("draft")
  }

  /** `typeof v === 'number' && !(v < 1)`. */
  predicate PositiveNumber(v: Json) {
    v.JNum? && v.n >= 1
  }

  /** A truthy id equal to one already in the set of seen ids. */
  predicate SeenBefore(id: Option<Json>, seen: set<Json>) {
    Truthy(id) && Primitive(id.value) && id.value in seen
  }

  predicate NotSlug(id: Option<Json>) {
    Truthy(id) && !IsSlug(JsString(id.value))
  }

  predicate MalformedDate(date: Option<Json>) {
    Truthy(date) && !IsIsoDate(JsString(date.value))
  }

  predicate UnparsableDate(date: Option<Json>, parse: DateParser) {
    Truthy(date) && IsIsoDate(JsString(date.value)) && parse(JsString(date.value)).None?
  }

  predicate TagsNotList(tags: Option<Json>) {
    Truthy(tags) && !tags.value.JArr?
  }

  predicate UnknownStatus(status: Option<Json>) {
    Truthy(status) && !KnownStatus(status.value)
  }

  predicate FileAbsent(file: Option<Json>, files: map<string, string>) {
    Truthy(file) && file.value.JStr? && file.value.s !in files
  }

  /** `article.excerpt.length` when the excerpt is truthy. */
  function ExcerptLength(e: Option<Json>): Option<int> {
    if Truthy(e) then LengthOf(e.value) else None
  }

  predicate BadReadTimeValue(v: Option<Json>) {
    v.Some? && !PositiveNumber(v.value)
  }

  /** The date check: a malformed date, or a well-formed one the engine
      cannot parse; never both. */
  function DateProblems(date: Option<Json>, parse: DateParser): (r: seq<Problem>)
    ensures BadDateFormat in r <==> MalformedDate(date)
    ensures InvalidDate in r <==> UnparsableDate(date, parse)
    ensures forall k | 0 <= k < |r| :: r[k] == BadDateFormat || r[k] == InvalidDate
  {
    if !Truthy(date) then []
    else if !IsIsoDate(JsString(date.value)) then [BadDateFormat]
    else if parse(JsString(date.value)).None? then [InvalidDate]
    else []
  }

  /** The problems `validateJSONStructure` reports for one article. */
  function ArticleProblems(a: Json, seen: set<Json>, files: map<string, string>, parse: DateParser): seq<Problem> {
    MissingFrom(Keys(a), RequiredFields)
    + Flag(SeenBefore(Prop(a, "id"), seen), DuplicateId)
    + DateProblems(Prop(a, "date"), parse)
    + Flag(TagsNotList(Prop(a, "tags")), TagsNotArray)
    + Flag(UnknownStatus(Prop(a, "status")), BadStatus)
    + Flag(FileAbsent(Prop(a, "contentFile"), files), MissingFile)
  }

  /** The advice `validateJSONStructure` gives for one article. */
  function ArticleAdvice(a: Json): seq<Advice> {
    var len := ExcerptLength(Prop(a, "excerpt"));
    Flag(NotSlug(Prop(a, "id")), IdNotSlug)
    + Flag(Prop(a, "tags") == Some(JArr([])), NoTags)
    + Flag(len.Some? && len.value > 300, ExcerptTooLong)
    + Flag(len.Some? && len.value < 50, ExcerptTooShort)
    + Flag(BadReadTimeValue(Prop(a, "readTime")), BadReadTime)
  }

  /** A missing field is reported exactly for the required names the
      article lacks. */
  lemma MissingFieldIff(a: Json, seen: set<Json>, files: map<string, string>, parse: DateParser, f: string)
    ensures MissingField(f) in ArticleProblems(a, seen, files, parse) <==> f in RequiredFields && Prop(a, f).None?
  {
    assert f !in Keys(a) <==> Prop(a, f).None?;
  }

  /** A duplicate is reported exactly for an id already seen. */
  lemma DuplicateProblemIff(a: Json, seen: set<Json>, files: map<string, string>, parse: DateParser)
    ensures DuplicateId in ArticleProblems(a, seen, files, parse) <==> SeenBefore(Prop(a, "id"), seen)
  {
  }

  /** A date problem is reported exactly when the date is malformed or
      unparsable. */
  lemma DateProblemsIff(a: Json, seen: set<Json>, files: map<string, string>, parse: DateParser)
    ensures BadDateFormat in ArticleProblems(a, seen, files, parse) <==> MalformedDate(Prop(a, "date"))
    ensures InvalidDate in ArticleProblems(a, seen, files, parse) <==> UnparsableDate(Prop(a, "date"), parse)
  {
  }

  /** Tags that are not a list are reported exactly when present and not an array. */
  lemma TagsProblemIff(a: Json, seen: set<Json>, files: map<string, string>, parse: DateParser)
    ensures TagsNotArray in ArticleProblems(a, seen, files, parse) <==> TagsNotList(Prop(a, "tags"))
  {
  }

  /** A status is reported exactly when it is present and not a known one. */
  lemma StatusProblemIff(a: Json, seen: set<Json>, files: map<string, string>, parse: DateParser)
    ensures BadStatus in ArticleProblems(a, seen, files, parse) <==> UnknownStatus(Prop(a, "status"))
  {
  }

  /** A missing page is reported exactly when `contentFile` names no file. */
  lemma FileProblemIff(a: Json, seen: set<Json>, files: map<string, string>, parse: DateParser)
    ensures MissingFile in ArticleProblems(a, seen, files, parse) <==> FileAbsent(Prop(a, "contentFile"), files)
  {
  }

  /** Each kind of advice is given exactly when it applies. */
  lemma ArticleAdviceIff(a: Json)
    ensures IdNotSlug in ArticleAdvice(a) <==> NotSlug(Prop(a, "id"))
    ensures NoTags in ArticleAdvice(a) <==> Prop(a, "tags") == Some(JArr([]))
    ensures BadReadTime in ArticleAdvice(a) <==> BadReadTimeValue(Prop(a, "readTime"))
  {
  }

  /** The excerpt advice is given exactly when its length is out of range. */
  lemma ExcerptAdviceIff(a: Json)
    ensures ExcerptTooLong in ArticleAdvice(a) <==>
      ExcerptLength(Prop(a, "excerpt")).Some? && ExcerptLength(Prop(a, "excerpt")).value > 300
    ensures ExcerptTooShort in ArticleAdvice(a) <==>
      ExcerptLength(Prop(a, "excerpt")).Some? && ExcerptLength(Prop(a, "excerpt")).value < 50
  {
  }

  /** The excerpt is never both too long and too short. */
  lemma ExcerptAdviceExclusive(a: Json)
    ensures !(ExcerptTooLong in ArticleAdvice(a) && ExcerptTooShort in ArticleAdvice(a))
  {
    ExcerptAdviceIff(a);
  }

  /** `in` on a primitive or `null`, and `path.join` on a truthy
      non-string `contentFile`, throw. */
  predicate Crashes(a: Json) {
    !(a.JObj? || a.JArr?) || (Truthy(Prop(a, "contentFile")) && !Prop(a, "contentFile").value.JStr?)
  }

  /** The problems of article `i`, as errors. */
  function ErrorsAt(i: nat, ps: seq<Problem>): (r: seq<Error>)
    ensures |r| == |ps|
    ensures forall k | 0 <= k < |r| :: r[k] == InArticle(i, ps[k])
  {
    seq(|ps|, k requires 0 <= k < |ps| => InArticle(i, ps[k]))
  }

  function WarningsAt(i: nat, ds: seq<Advice>): (r: seq<Warning>)
    ensures |r| == |ds|
    ensures forall k | 0 <= k < |r| :: r[k] == ForArticle(i, ds[k])
  {
    seq(|ds|, k requires 0 <= k < |ds| => ForArticle(i, ds[k]))
  }

  /** The checks `validateJSONStructure` runs on the article at position
      `i`, given the ids already seen; files present on disk are the keys
      of `files`. */
  function CheckArticle(i: nat, a: Json, seen: set<Json>, files: map<string, string>, parse: DateParser): (r: Option<Report>)
    ensures r.None? <==> Crashes(a)
    ensures r.Some? ==> forall k | 0 <= k < |r.value.errors| :: r.value.errors[k].InArticle? && r.value.errors[k].article == i
  {
    if Crashes(a) then None
    else Some(Report(ErrorsAt(i, ArticleProblems(a, seen, files, parse)), WarningsAt(i, ArticleAdvice(a))))
  }

  /** The set `articleIds` after `add(article.id)` for a truthy id. */
  function Remember(seen: set<Json>, a: Json): set<Json> {
    if Truthy(Prop(a, "id")) && Primitive(Prop(a, "id").value) then seen + {Prop(a, "id").value} else seen
  }

  /** The set `articleIds` before the article at `i` is checked. */
  function IdsBefore(arts: seq<Json>, i: nat): set<Json>
    requires i <= |arts|
  {
    if i == 0 then {} else Remember(IdsBefore(arts, i - 1), arts[i - 1])
  }

  /** The remembered ids are exactly the truthy primitive ids met so far. */
  lemma {:induction false} IdsBeforeMembers(arts: seq<Json>, i: nat, v: Json)
    requires i <= |arts|
    ensures v in IdsBefore(arts, i) <==>
      Truthy(Some(v)) && Primitive(v) && exists j | 0 <= j < i :: Prop(arts[j], "id") == Some(v)
  {
    if i > 0 {
      IdsBeforeMembers(arts, i - 1, v);
    }
  }

  /** The article at `i` repeats an id seen earlier. */
  predicate RepeatsEarlierId(arts: seq<Json>, i: nat)
    requires i < |arts|
  {
    var id := Prop(arts[i], "id");
    Truthy(id) && Primitive(id.value) && exists j | 0 <= j < i :: Prop(arts[j], "id") == id
  }

  lemma DuplicateIff(arts: seq<Json>, i: nat)
    requires i < |arts|
    ensures SeenBefore(Prop(arts[i], "id"), IdsBefore(arts, i)) <==> RepeatsEarlierId(arts, i)
  {
    var id := Prop(arts[i], "id");
    if id.Some? {
      IdsBeforeMembers(arts, i, id.value);
    }
  }

  /** No article from position `i` on makes the checks throw. */
  predicate NoneCrashFrom(arts: seq<Json>, i: nat)
    requires i <= |arts|
  {
    forall k | i <= k < |arts| :: !Crashes(arts[k])
  }

  lemma NoneCrashStep(arts: seq<Json>, i: nat)
    requires i < |arts|
    ensures NoneCrashFrom(arts, i) <==> !Crashes(arts[i]) && NoneCrashFrom(arts, i + 1)
  {
  }

  /** `rep` reports each article from `i` on with exactly its own problems
      and advice, and nothing about earlier articles. */
  ghost predicate ReportsEachFrom(arts: seq<Json>, i: nat, files: map<string, string>, parse: DateParser, rep: Report)
    requires i <= |arts|
  {
    && (forall k | 0 <= k < |rep.errors| :: rep.errors[k].InArticle? && i <= rep.errors[k].article)
    && (forall k | 0 <= k < |rep.warnings| :: rep.warnings[k].ForArticle? && i <= rep.warnings[k].article)
    && (forall k, p | i <= k < |arts| ::
          InArticle(k, p) in rep.errors <==> p in ArticleProblems(arts[k], IdsBefore(arts, k), files, parse))
    && (forall k, d | i <= k < |arts| :: ForArticle(k, d) in rep.warnings <==> d in ArticleAdvice(arts[k]))
  }

  /** The per-article checks from position `i` on, concatenated. */
  function CheckFrom(arts: seq<Json>, i: nat, files: map<string, string>, parse: DateParser): (r: Option<Report>)
    requires i <= |arts|
    ensures r.Some? <==> NoneCrashFrom(arts, i)
    ensures r.Some? ==> forall k | 0 <= k < |r.value.errors| ::
      r.value.errors[k].InArticle? && i <= r.value.errors[k].article
    ensures r.Some? ==> ReportsEachFrom(arts, i, files, parse, r.value)
    decreases |arts| - i
  {
    if i == |arts| then Some(Report([], []))
    else if Crashes(arts[i]) then
      NoneCrashStep(arts, i);
      None
    else
      NoneCrashStep(arts, i);
      match CheckFrom(arts, i + 1, files, parse)
      case None => None
      case Some(tail) =>
        var head := CheckArticle(i, arts[i], IdsBefore(arts, i), files, parse).value;
        CheckFromStep(arts, i, files, parse, tail);
        Some(Report(head.errors + tail.errors, head.warnings + tail.warnings))
  }

  /** Article `i`'s report followed by a report that covers the articles
      after it covers the articles from `i` on. */
  lemma CheckFromStep(arts: seq<Json>, i: nat, files: map<string, string>, parse: DateParser, tail: Report)
    requires i < |arts| && !Crashes(arts[i])
    requires ReportsEachFrom(arts, i + 1, files, parse, tail)
    ensures
      var head := CheckArticle(i, arts[i], IdsBefore(arts, i), files, parse).value;
      ReportsEachFrom(arts, i, files, parse, Report(head.errors + tail.errors, head.warnings + tail.warnings))
  {
    var head := CheckArticle(i, arts[i], IdsBefore(arts, i), files, parse).value;
    AboutFrom(head.errors, tail.errors, i);
    ErrorsStep(arts, i, files, parse, tail.errors);
    WarningsStep(arts, i, tail.warnings);
  }

  /** Errors about article `i` followed by errors about later articles are
      all about article `i` or later. */
  lemma AboutFrom(head: seq<Error>, tail: seq<Error>, i: nat)
    requires forall k | 0 <= k < |head| :: head[k].InArticle? && head[k].article == i
    requires forall k | 0 <= k < |tail| :: tail[k].InArticle? && i + 1 <= tail[k].article
    ensures forall k | 0 <= k < |head + tail| :: (head + tail)[k].InArticle? && i <= (head + tail)[k].article
  {
  }

  /** Prepending the errors of article `i` to a report that holds exactly
      the problems of the articles after it gives one that holds exactly
      the problems of the articles from `i` on. */
  lemma ErrorsStep(arts: seq<Json>, i: nat, files: map<string, string>, parse: DateParser, tail: seq<Error>)
    requires i < |arts|
    requires forall k | 0 <= k < |tail| :: tail[k].InArticle? && i + 1 <= tail[k].article
    requires forall k, p | i + 1 <= k < |arts| ::
      InArticle(k, p) in tail <==> p in ArticleProblems(arts[k], IdsBefore(arts, k), files, parse)
    ensures forall k, p | i <= k < |arts| ::
      var errs := ErrorsAt(i, ArticleProblems(arts[i], IdsBefore(arts, i), files, parse)) + tail;
      InArticle(k, p) in errs <==> p in ArticleProblems(arts[k], IdsBefore(arts, k), files, parse)
  {
    var ps := ArticleProblems(arts[i], IdsBefore(arts, i), files, parse);
    forall k, p | i <= k < |arts|
      ensures (InArticle(k, p) in ErrorsAt(i, ps) + tail) <==> p in ArticleProblems(arts[k], IdsBefore(arts, k), files, parse)
    {
      if k == i {
        ErrorsAtMember(i, ps, p);
        NoErrorFor(tail, k, p);
      } else {
        assert InArticle(k, p) !in ErrorsAt(i, ps);
      }
    }
  }

  /** The same step for the advice. */
  lemma WarningsStep(arts: seq<Json>, i: nat, tail: seq<Warning>)
    requires i < |arts|
    requires forall k | 0 <= k < |tail| :: tail[k].ForArticle? && i + 1 <= tail[k].article
    requires forall k, d | i + 1 <= k < |arts| :: ForArticle(k, d) in tail <==> d in ArticleAdvice(arts[k])
    ensures forall k, d | i <= k < |arts| ::
      ForArticle(k, d) in WarningsAt(i, ArticleAdvice(arts[i])) + tail <==> d in ArticleAdvice(arts[k])
  {
    var ds := ArticleAdvice(arts[i]);
    forall k, d | i <= k < |arts|
      ensures ForArticle(k, d) in WarningsAt(i, ds) + tail <==> d in ArticleAdvice(arts[k])
    {
      if k == i {
        if d in ds {
          var j :| 0 <= j < |ds| && ds[j] == d;
          assert WarningsAt(i, ds)[j] == ForArticle(i, d);
        }
        assert ForArticle(k, d) !in tail;
      } else {
        assert ForArticle(k, d) !in WarningsAt(i, ds);
      }
    }
  }

  /** From position `i` on, the article at `k` is reported as a duplicate
      exactly when it repeats an earlier id. */
  lemma DuplicatesFrom(arts: seq<Json>, i: nat, files: map<string, string>, parse: DateParser, k: nat)
    requires i <= k < |arts|
    requires CheckFrom(arts, i, files, parse).Some?
    ensures InArticle(k, DuplicateId) in CheckFrom(arts, i, files, parse).value.errors <==> RepeatsEarlierId(arts, k)
  {
    DuplicateProblemIff(arts[k], IdsBefore(arts, k), files, parse);
    DuplicateIff(arts, k);
  }

  lemma ErrorsAtMember(i: nat, ps: seq<Problem>, p: Problem)
    ensures InArticle(i, p) in ErrorsAt(i, ps) <==> p in ps
  {
    var r := ErrorsAt(i, ps);
    if p in ps {
      var k :| 0 <= k < |ps| && ps[k] == p;
      assert r[k] == InArticle(i, p);
    }
  }

  /** A list of errors about other articles says nothing about `k`. */
  lemma NoErrorFor(errs: seq<Error>, k: nat, p: Problem)
    requires forall j | 0 <= j < |errs| :: errs[j].InArticle? && errs[j].article != k
    ensures InArticle(k, p) !in errs
  {
  }

  /** `validateJSONStructure(data)`: without an `articles` array, one error
      and nothing else; otherwise the per-article checks. */
  function ValidateStructure(data: Json, files: map<string, string>, parse: DateParser): (r: Option<Report>)
    ensures data.JNull? ==> r.None?
    ensures !data.JNull? && !(Truthy(Prop(data, "articles")) && Prop(data, "articles").value.JArr?) ==>
      r == Some(Report([NoArticleArray], []))
    ensures !data.JNull? && Truthy(Prop(data, "articles")) && Prop(data, "articles").value.JArr? ==>
      (r.Some? <==> NoneCrashFrom(Prop(data, "articles").value.items, 0)) &&
      (r.Some? ==> NoArticleArray !in r.value.errors) &&
      (r.Some? ==> ReportsEachFrom(Prop(data, "articles").value.items, 0, files, parse, r.value))
  {
    if data.JNull? then None
    else
      var articles := Prop(data, "articles");
      if !Truthy(articles) || !articles.value.JArr? then Some(Report([NoArticleArray], []))
      else CheckFrom(articles.value.items, 0, files, parse)
  }

  /** Every repeat of an id after its first occurrence is reported as a
      duplicate, and nothing else is. */
  lemma DuplicatesAreRepeats(data: Json, files: map<string, string>, parse: DateParser, k: nat)
    requires Truthy(Prop(data, "articles")) && Prop(data, "articles").value.JArr?
    requires k < |Prop(data, "articles").value.items|
    requires ValidateStructure(data, files, parse).Some?
    ensures InArticle(k, DuplicateId) in ValidateStructure(data, files, parse).value.errors
      <==> RepeatsEarlierId(Prop(data, "articles").value.items, k)
  {
    DuplicatesFrom(Prop(data, "articles").value.items, 0, files, parse, k);
  }

  /** `name="article-id"\s+content="([^"]+)"`, in pieces. */
  const NameAttr := "name=\"article-id\""
  const ContentAttr := "content=\""

  /** The end of the whitespace run starting at `k`. */
  function SpaceRunEnd(t: string, k: nat): (e: nat)
    requires k <= |t|
    ensures k <= e <= |t|
    ensures forall j | k <= j < e :: IsSpace(t[j])
    ensures e < |t| ==> !IsSpace(t[e])
    decreases |t| - k
  {
    if k == |t| || !IsSpace(t[k]) then k else SpaceRunEnd(t, k + 1)
  }

  /** The id captured by a match of the meta regular expression starting
      exactly at `i`. Whitespace cannot start `content`, and a quote ends
      the captured value, so both runs are maximal in any match and the
      match at `i` is unique. */
  function MetaIdAt(t: string, i: nat): (r: Option<string>)
    requires i <= |t|
    ensures r.Some? ==> StartsWith(t[i..], NameAttr) && r.value != "" && '"' !in r.value
  {
    if !StartsWith(t[i..], NameAttr) then None
    else
      var e := SpaceRunEnd(t, i + |NameAttr|);
      if e == i + |NameAttr| || !StartsWith(t[e..], ContentAttr) then None
      else
        var v := e + |ContentAttr|;
        var q := RunWithout(t, v, '"');
        if q == v || q == |t| then None
        else
          assert forall j | 0 <= j < q - v :: t[v..q][j] == t[v + j];
          Some(t[v..q])
  }

  /** The position of the leftmost match at or after `i`. */
  function FirstMetaFrom(t: string, i: nat): (p: Option<nat>)
    requires i <= |t|
    ensures p.Some? ==> i <= p.value <= |t| && MetaIdAt(t, p.value).Some?
    ensures p.Some? ==> forall j | i <= j < p.value :: MetaIdAt(t, j).None?
    ensures p.None? ==> forall j | i <= j <= |t| :: MetaIdAt(t, j).None?
    decreases |t| - i
  {
    if MetaIdAt(t, i).Some? then Some(i)
    else if i == |t| then None
    else FirstMetaFrom(t, i + 1)
  }

  /** `content.match(...)[1]`, None when nothing matches. */
  function FirstMetaId(t: string): (r: Option<string>)
    ensures r.Some? ==> r.value != "" && '"' !in r.value
  {
    match FirstMetaFrom(t, 0)
    case None => None
    case Some(p) => MetaIdAt(t, p)
  }

  /** The checks `validateArticleFiles` runs on one record. */
  function CheckFile(a: Json, files: map<string, string>): (r: Option<Report>)
    ensures r.None? <==> a.JNull? || (Truthy(Prop(a, "contentFile")) && !Prop(a, "contentFile").value.JStr?)
    ensures r.Some? ==> |r.value.errors| <= 1 && |r.value.warnings| <= 1 && (r.value.errors == [] || r.value.warnings == [])
    ensures r.Some? && Truthy(Prop(a, "contentFile")) ==>
      (r.value.errors == [FileNotFound(Prop(a, "contentFile").value.s)] <==> Prop(a, "contentFile").value.s !in files)
    ensures r.Some? && !Truthy(Prop(a, "contentFile")) ==> r.value == Report([], [])
    ensures r.Some? && Truthy(Prop(a, "contentFile")) && Prop(a, "contentFile").value.s in files ==>
      var page := files[Prop(a, "contentFile").value.s];
      && r.value.warnings == (if Contains(page, NameAttr) then [] else [NoIdMeta(Prop(a, "contentFile").value.s)])
      && (r.value.errors != [] <==>
            Contains(page, NameAttr) && FirstMetaId(page).Some? && Some(JStr(FirstMetaId(page).value)) != Prop(a, "id"))
      && (r.value.errors != [] ==> r.value.errors == [IdMismatch(Prop(a, "id"), FirstMetaId(page).value)])
  {
    if a.JNull? then None
    else
      var file := Prop(a, "contentFile");
      if !Truthy(file) then Some(Report([], []))
      else if !file.value.JStr? then None
      else
        var path := file.value.s;
        if path !in files then Some(Report([FileNotFound(path)], []))
        else
          var content := files[path];
          if !Contains(content, NameAttr) then Some(Report([], [NoIdMeta(path)]))
          else
            match FirstMetaId(content)
            case Some(v) =>
              if Some(JStr(v)) != Prop(a, "id") then Some(Report([IdMismatch(Prop(a, "id"), v)], []))
              else Some(Report([], []))
            case None => Some(Report([], []))
  }

  /** An article the structure checks survive survives the file checks. */
  lemma SurvivorsPassFileChecks(arts: seq<Json>, files: map<string, string>)
    requires NoneCrashFrom(arts, 0)
    ensures ValidateFiles(arts, files).Some?
  {
  }

  /** `validateArticleFiles(articles)`. */
  function ValidateFiles(arts: seq<Json>, files: map<string, string>): (r: Option<Report>)
    ensures r.Some? <==> forall k | 0 <= k < |arts| :: CheckFile(arts[k], files).Some?
    ensures r.Some? ==> forall k | 0 <= k < |r.value.errors| ::
      r.value.errors[k].FileNotFound? || r.value.errors[k].IdMismatch?
    ensures r.Some? ==> forall e :: e in r.value.errors <==> exists k | 0 <= k < |arts| :: e in CheckFile(arts[k], files).value.errors
    ensures r.Some? ==> forall w :: w in r.value.warnings <==> exists k | 0 <= k < |arts| :: w in CheckFile(arts[k], files).value.warnings
  {
    if arts == [] then Some(Report([], []))
    else
      match (CheckFile(arts[0], files), ValidateFiles(arts[1..], files))
      case (Some(h), Some(t)) =>
        assert forall k | 1 <= k < |arts| :: arts[k] == arts[1..][k - 1];
        FilesStep(arts, files, h, t);
        Some(Report(h.errors + t.errors, h.warnings + t.warnings))
      case (_, t) =>
        assert forall k | 1 <= k < |arts| :: arts[k] == arts[1..][k - 1];
        None
  }

  /** The page check of the first record followed by those of the rest
      gathers what each record's own check reports. */
  lemma FilesStep(arts: seq<Json>, files: map<string, string>, h: Report, t: Report)
    requires arts != [] && CheckFile(arts[0], files) == Some(h)
    requires forall k | 0 <= k < |arts| :: CheckFile(arts[k], files).Some?
    requires forall e :: e in t.errors <==> exists k | 0 <= k < |arts[1..]| :: e in CheckFile(arts[1..][k], files).value.errors
    requires forall w :: w in t.warnings <==> exists k | 0 <= k < |arts[1..]| :: w in CheckFile(arts[1..][k], files).value.warnings
    ensures forall e :: e in h.errors + t.errors <==> exists k | 0 <= k < |arts| :: e in CheckFile(arts[k], files).value.errors
    ensures forall w :: w in h.warnings + t.warnings <==> exists k | 0 <= k < |arts| :: w in CheckFile(arts[k], files).value.warnings
  {
    forall e | e in t.errors
      ensures exists k | 0 <= k < |arts| :: e in CheckFile(arts[k], files).value.errors
    {
      var k :| 0 <= k < |arts[1..]| && e in CheckFile(arts[1..][k], files).value.errors;
      assert arts[1..][k] == arts[k + 1];
    }
    forall e | exists k | 0 <= k < |arts| :: e in CheckFile(arts[k], files).value.errors
      ensures e in h.errors + t.errors
    {
      var k :| 0 <= k < |arts| && e in CheckFile(arts[k], files).value.errors;
      if k > 0 {
        assert arts[1..][k - 1] == arts[k];
      }
    }
    forall w | w in t.warnings
      ensures exists k | 0 <= k < |arts| :: w in CheckFile(arts[k], files).value.warnings
    {
      var k :| 0 <= k < |arts[1..]| && w in CheckFile(arts[1..][k], files).value.warnings;
      assert arts[1..][k] == arts[k + 1];
    }
    forall w | exists k | 0 <= k < |arts| :: w in CheckFile(arts[k], files).value.warnings
      ensures w in h.warnings + t.warnings
    {
      var k :| 0 <= k < |arts| && w in CheckFile(arts[k], files).value.warnings;
      if k > 0 {
        assert arts[1..][k - 1] == arts[k];
      }
    }
  }

  /** A missing page is reported exactly when some record names it. */
  lemma MissingPagesReported(arts: seq<Json>, files: map<string, string>, path: string)
    requires ValidateFiles(arts, files).Some?
    ensures FileNotFound(path) in ValidateFiles(arts, files).value.errors <==>
      path != "" && path !in files && exists k | 0 <= k < |arts| :: Prop(arts[k], "contentFile") == Some(JStr(path))
  {
    forall k | 0 <= k < |arts|
      ensures FileNotFound(path) in CheckFile(arts[k], files).value.errors <==>
        path != "" && path !in files && Prop(arts[k], "contentFile") == Some(JStr(path))
    {
      RecordMissingPage(arts[k], files, path);
    }
  }

  /** One record's page check reports a missing page exactly for its own
      `contentFile`, when that file is absent. */
  lemma RecordMissingPage(a: Json, files: map<string, string>, path: string)
    requires CheckFile(a, files).Some?
    ensures FileNotFound(path) in CheckFile(a, files).value.errors <==>
      path != "" && path !in files && Prop(a, "contentFile") == Some(JStr(path))
  {
  }

  /** An id mismatch is reported exactly when some record's page carries,
      in its first article-id meta tag, an id other than the record's. */
  lemma MismatchesReported(arts: seq<Json>, files: map<string, string>, expected: Option<Json>, found: string)
    requires ValidateFiles(arts, files).Some?
    ensures IdMismatch(expected, found) in ValidateFiles(arts, files).value.errors <==>
      exists k | 0 <= k < |arts| :: MetaDisagrees(arts[k], files, expected, found)
  {
    forall k | 0 <= k < |arts|
      ensures IdMismatch(expected, found) in CheckFile(arts[k], files).value.errors <==> MetaDisagrees(arts[k], files, expected, found)
    {
    }
  }

  /** The record `a` has id `expected`, and its page's first article-id
      meta tag reads `found`, another id. */
  ghost predicate MetaDisagrees(a: Json, files: map<string, string>, expected: Option<Json>, found: string) {
    var cf := Prop(a, "contentFile");
    && Truthy(cf) && cf.value.JStr? && cf.value.s in files
    && Contains(files[cf.value.s], NameAttr)
    && FirstMetaId(files[cf.value.s]) == Some(found)
    && expected == Prop(a, "id") && Some(JStr(found)) != expected
  }

  /** The meta tag's pieces laid out from position `p`. */
  predicate MetaLaidOut(t: string, p: nat, v: string) {
    var s := p + |NameAttr| + 1 + |ContentAttr|;
    && s + |v| < |t|
    && t[p..p + |NameAttr|] == NameAttr
    && t[p + |NameAttr|] == ' '
    && t[p + |NameAttr| + 1..s] == ContentAttr
    && t[s..s + |v|] == v
    && t[s + |v|] == '"'
  }

  /** A match laid out at `p` captures `v`. */
  lemma MetaIdAtLaidOut(t: string, p: nat, v: string)
    requires v != "" && '"' !in v
    requires MetaLaidOut(t, p, v)
    ensures MetaIdAt(t, p) == Some(v)
  {
    var k := p + |NameAttr|;
    var s := k + 1 + |ContentAttr|;
    LaidOutPieces(t, p, v);
    RunWithoutStopsAt(t, s, s + |v|);
    MetaIdAtPieces(t, p, v);
  }

  /** What `MetaIdAt` checks, read off the layout. */
  lemma LaidOutPieces(t: string, p: nat, v: string)
    requires '"' !in v
    requires MetaLaidOut(t, p, v)
    ensures StartsWith(t[p..], NameAttr)
    ensures SpaceRunEnd(t, p + |NameAttr|) == p + |NameAttr| + 1
    ensures StartsWith(t[p + |NameAttr| + 1..], ContentAttr)
    ensures forall j | p + |NameAttr| + 1 + |ContentAttr| <= j < p + |NameAttr| + 1 + |ContentAttr| + |v| :: t[j] != '"'
  {
    var k := p + |NameAttr|;
    var s := k + 1 + |ContentAttr|;
    assert t[p..][..|NameAttr|] == t[p..k];
    assert t[k + 1] == ContentAttr[0] by {
      assert t[k + 1..s][0] == t[k + 1];
    }
    assert t[k + 1..][..|ContentAttr|] == t[k + 1..s];
    forall j | s <= j < s + |v|
      ensures t[j] != '"'
    {
      assert t[j] == t[s..s + |v|][j - s];
    }
  }

  /** `MetaIdAt` once its steps are known. */
  lemma MetaIdAtPieces(t: string, p: nat, v: string)
    requires v != ""
    requires p + |NameAttr| + 1 + |ContentAttr| + |v| < |t|
    requires StartsWith(t[p..], NameAttr)
    requires SpaceRunEnd(t, p + |NameAttr|) == p + |NameAttr| + 1
    requires StartsWith(t[p + |NameAttr| + 1..], ContentAttr)
    requires RunWithout(t, p + |NameAttr| + 1 + |ContentAttr|, '"') == p + |NameAttr| + 1 + |ContentAttr| + |v|
    requires t[p + |NameAttr| + 1 + |ContentAttr|..p + |NameAttr| + 1 + |ContentAttr| + |v|] == v
    ensures MetaIdAt(t, p) == Some(v)
  {
  }

  lemma RunWithoutStopsAt(t: string, k: nat, q: nat)
    requires k <= q < |t|
    requires forall j | k <= j < q :: t[j] != '"'
    requires t[q] == '"'
    ensures RunWithout(t, k, '"') == q
    decreases q - k
  {
    if k < q {
      RunWithoutStopsAt(t, k + 1, q);
    }
  }

  /** A match at `p` with none from `i` up to it is the one found. */
  lemma {:induction false} FirstMetaAt(t: string, i: nat, p: nat)
    requires i <= p <= |t| && MetaIdAt(t, p).Some?
    requires forall j | i <= j < p :: MetaIdAt(t, j).None?
    ensures FirstMetaFrom(t, i) == Some(p)
    decreases p - i
  {
    if i < p {
      FirstMetaAt(t, i + 1, p);
    }
  }

  /** A page whose first `name="article-id"` is followed by one space and
      `content="v"` reads back `v`. */
  lemma MetaIdReadsBack(t: string, p: nat, v: string)
    requires v != "" && '"' !in v
    requires IndexOf(t, NameAttr) == Some(p)
    requires MetaLaidOut(t, p, v)
    ensures FirstMetaId(t) == Some(v)
  {
    MetaIdAtLaidOut(t, p, v);
    FirstMetaAt(t, 0, p);
  }

  /** The tag `MetaTag("article-id", v)` lays out a match. */
  lemma MetaTagLaidOut(before: string, v: string, after: string)
    ensures MetaLaidOut(before + MetaTag("article-id", v) + after, |before| + 6, v)
  {
    var w := NameAttr + " " + ContentAttr + v + "\"";
    MetaTagSpelled(v);
    var pre, post := before + "<meta ", ">" + after;
    assert before + ("<meta " + w + ">") + after == pre + w + post;
    AttrsLaidOut(pre, v, post);
  }

  lemma MetaTagSpelled(v: string)
    ensures MetaTag("article-id", v) == "<meta " + (NameAttr + " " + ContentAttr + v + "\"") + ">"
  {
  }

  /** The two attributes, then anything, lay out a match where they start. */
  lemma AttrsLaidOut(pre: string, v: string, post: string)
    ensures MetaLaidOut(pre + (NameAttr + " " + ContentAttr + v + "\"") + post, |pre|, v)
  {
    var w := NameAttr + " " + ContentAttr + v + "\"";
    AttrsAlone(v);
    LaidOutInContext(pre, w, post, v);
  }

  /** The two attributes on their own lay out a match at 0. */
  lemma AttrsAlone(v: string)
    ensures MetaLaidOut(NameAttr + " " + ContentAttr + v + "\"", 0, v)
  {
    var w := NameAttr + " " + ContentAttr + v + "\"";
    var n, c := |NameAttr|, |ContentAttr|;
    assert w[..n] == NameAttr;
    assert w[n] == ' ';
    assert w[n + 1..n + 1 + c] == ContentAttr;
    assert w[n + 1 + c..n + 1 + c + |v|] == v;
  }

  /** A layout inside `w` is one inside any text holding `w`. */
  lemma LaidOutInContext(pre: string, w: string, post: string, v: string)
    requires MetaLaidOut(w, 0, v)
    ensures MetaLaidOut(pre + w + post, |pre|, v)
  {
    var page := pre + w + post;
    var p := |pre|;
    forall i, j | 0 <= i <= j <= |w|
      ensures page[p + i..p + j] == w[i..j]
    {
      assert page[p..p + |w|] == w;
    }
    var n, c := |NameAttr|, |ContentAttr|;
    assert page[p + n] == w[n];
    assert page[p + n + 1 + c + |v|] == w[n + 1 + c + |v|];
  }

  /** A record whose page carries its own id in the meta tag, ahead of any
      other `name="article-id"`, raises no error or warning. */
  lemma OwnMetaTagNoMismatch(a: Json, files: map<string, string>, path: string, before: string, v: string, after: string)
    requires Prop(a, "id") == Some(JStr(v)) && v != "" && '"' !in v
    requires Prop(a, "contentFile") == Some(JStr(path)) && path != ""
    requires path in files && files[path] == before + MetaTag("article-id", v) + after
    requires IndexOf(files[path], NameAttr) == Some(|before| + 6)
    ensures CheckFile(a, files) == Some(Report([], []))
  {
    MetaTagLaidOut(before, v, after);
    MetaIdReadsBack(files[path], |before| + 6, v);
  }

  /** How the run ends. */
  datatype Outcome = Aborted | Finished(report: Report)

  /** `validateBlog()`: None for the source stands for a missing or
      unparsable `articles.json`. */
  function ValidateBlog(source: Option<Json>, files: map<string, string>, parse: DateParser): (o: Outcome)
    ensures o.Finished? <==>
      source.Some? && !source.value.JNull? &&
      (!Truthy(Prop(source.value, "articles")) ||
       (Prop(source.value, "articles").value.JArr? && NoneCrashFrom(Prop(source.value, "articles").value.items, 0)))
    ensures o.Finished? && !Truthy(Prop(source.value, "articles")) ==> o.report == Report([NoArticleArray], [])
    ensures o.Finished? && Truthy(Prop(source.value, "articles")) ==> NoArticleArray !in o.report.errors
    ensures o.Finished? && Truthy(Prop(source.value, "articles")) ==>
      var items := Prop(source.value, "articles").value.items;
      var structure := ValidateStructure(source.value, files, parse).value;
      var pages := ValidateFiles(items, files).value;
      o.report == Report(structure.errors + pages.errors, structure.warnings + pages.warnings)
  {
    match source
    case None => Aborted
    case Some(data) =>
      match ValidateStructure(data, files, parse)
      case None => Aborted
      case Some(structure) =>
        var articles := Prop(data, "articles");
        if !Truthy(articles) then Finished(structure)
        else if !articles.value.JArr? then Aborted
        else
          SurvivorsPassFileChecks(articles.value.items, files);
          match ValidateFiles(articles.value.items, files)
          case None => Aborted
          case Some(fileReport) =>
            Finished(Report(structure.errors + fileReport.errors, structure.warnings + fileReport.warnings))
  }

  /** A finished run reports each record with exactly its own problems;
      the page checks add none of that kind. */
  lemma BlogReportsEachRecord(source: Option<Json>, files: map<string, string>, parse: DateParser, k: nat, p: Problem)
    requires ValidateBlog(source, files, parse).Finished? && Truthy(Prop(source.value, "articles"))
    requires k < |Prop(source.value, "articles").value.items|
    ensures var items := Prop(source.value, "articles").value.items;
      var errs := ValidateBlog(source, files, parse).report.errors;
      InArticle(k, p) in errs <==> p in ArticleProblems(items[k], IdsBefore(items, k), files, parse)
  {
    var items := Prop(source.value, "articles").value.items;
    var pages := ValidateFiles(items, files).value;
    assert InArticle(k, p) !in pages.errors;
  }

  /** `process.exit(...)`, with 1 for an uncaught exception too. */
  function ExitCode(o: Outcome): (code: int)
    ensures code == 0 <==> o.Finished? && o.report.errors == []
    ensures code == 0 || code == 1
  {
    match o
    case Aborted => 1
    case Finished(r) => if r.errors == [] then 0 else 1
  }
}
