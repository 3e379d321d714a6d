/**
 * The news endpoints: the open news list, newest first, and news creation by a teacher,
 * which resolves the `category` field to an existing category by key or by name, or
 * creates the named category.
 */
module NewsViews {
  import opened Common
  import opened Text
  import opened Fields
  import opened UserModels
  import Ordering

  // ---------------------------------------------------------------------------
  // Tables
  // ---------------------------------------------------------------------------

  datatype Category = Category(id: Id, name: string)

  /** A news row; the image upload is not modelled. `category` is nullable. */
  datatype News = News(id: Id, title: string, content: string, publishDate: int, authorId: Id, categoryId: Option<Id>)

  datatype NewsTables = NewsTables(categories: seq<Category>, news: seq<News>)

  function CategoryKey(c: Category): nat { c.id }
  function NewsKey(n: News): nat { n.id }

  /** `name = CharField(unique=True)`. */
  ghost predicate NamesUnique(categories: seq<Category>)
  {
    forall i, j :: 0 <= i < j < |categories| ==> categories[i].name != categories[j].name
  }

  predicate CategoryExists(categories: seq<Category>, id: Id)
  {
    exists c :: c in categories && c.id == id
  }

  ghost predicate NewsValid(t: NewsTables)
  {
    && KeysDistinct(t.categories, CategoryKey)
    && KeysDistinct(t.news, NewsKey)
    && NamesUnique(t.categories)
    && (forall n :: n in t.news && n.categoryId.Some? ==> CategoryExists(t.categories, n.categoryId.value))
  }

  // ---------------------------------------------------------------------------
  // The news list
  // ---------------------------------------------------------------------------

  function PublishStamp(n: News): int
  {
    n.publishDate
  }

  /** `NewsListView`: every news item, newest `publish_date` first, whoever asks. */
  function NewsList(t: NewsTables): (r: seq<News>)
    ensures multiset(r) == multiset(t.news)
    ensures Ordering.NewestFirst(r, PublishStamp)
  {
    Ordering.SortNewestFirstIsSorted(t.news, PublishStamp);
    Ordering.SortNewestFirst(t.news, PublishStamp)
  }

  // ---------------------------------------------------------------------------
  // The `category` field
  // ---------------------------------------------------------------------------

  /** The raw `category` value of the body: absent, JSON null, a string, an integer, or any
      other JSON value (a boolean, a float, a list, an object), of which only its truth
      value matters. */
  datatype CategoryArg = NotGiven | NullArg | StringArg(s: string) | IntArg(n: int) | OtherArg(truthy: bool)

  /** `not category_input`. */
  predicate Falsy(a: CategoryArg)
  {
    a.NotGiven? || a.NullArg? || a == StringArg([]) || a == IntArg(0) || a == OtherArg(false)
  }

  /** How the view looks the category up: by key, or by name. */
  datatype Lookup = ByKey(id: Id) | ByName(name: string)

  datatype NewsError =
    | NotAuthenticated
    | NotTeacher                        // 403, the `IsTeacher` permission
    | CategoryRequired                  // 400
    | CategoryNotFound                  // 400
    | BadCategoryFormat                 // 400
    | Invalid(field: NewsField, why: FieldError)

  datatype NewsField = TitleField | ContentField

  /** The branching on `category`: a falsy value is refused, one whose `str` is all digits is
      a key, any other string is a name (stripped), anything else is refused. */
  function Classify(a: CategoryArg): (r: Result<Lookup, NewsError>)
    ensures Falsy(a) <==> r == Err(CategoryRequired)
    ensures r == Err(BadCategoryFormat) <==> (a.IntArg? && a.n < 0) || a == OtherArg(true)
    ensures a.StringArg? && a.s != [] ==>
      r == (if IsDigitString(a.s) then Ok(ByKey(ParseDecimal(a.s))) else Ok(ByName(Strip(a.s))))
    ensures a.IntArg? && a.n > 0 ==> r == Ok(ByKey(a.n))
  {
    match a
    case NotGiven => Err(CategoryRequired)
    case NullArg => Err(CategoryRequired)
    case OtherArg(truthy) => if truthy then Err(BadCategoryFormat) else Err(CategoryRequired)
    case IntArg(n) => if n == 0 then Err(CategoryRequired) else if n > 0 then Ok(ByKey(n)) else Err(BadCategoryFormat)
    case StringArg(s) =>
      if s == [] then Err(CategoryRequired)
      else if IsDigitString(s) then Ok(ByKey(ParseDecimal(s)))
      else Ok(ByName(Strip(s)))
  }

  /** `Category.objects.get(id=...)`. */
  function FindCategory(categories: seq<Category>, id: Id): (r: Option<Category>)
    ensures r.Some? ==> r.value in categories && r.value.id == id
    ensures r.None? ==> !CategoryExists(categories, id)
  {
    if categories == [] then None
    else if categories[0].id == id then Some(categories[0])
    else FindCategory(categories[1..], id)
  }

  /** What the view needs of the database's collation: the case folding `iexact` compares
      under, and the sort key `ORDER BY name` sorts by. */
  datatype Collation = Collation(fold: string -> string, key: string -> seq<int>)

  /** The name matches `name` case-insensitively. */
  predicate NameMatches(db: Collation, c: Category, name: string)
  {
    db.fold(c.name) == db.fold(name)
  }

  /** `Category.objects.filter(name__iexact=name).first()`. `Category` is ordered by name, so
      this is the match whose name sorts first; of matches that sort alike, the earliest row. */
  function FindCategoryNamed(categories: seq<Category>, name: string, db: Collation): (r: Option<Category>)
    ensures r.Some? ==> r.value in categories && NameMatches(db, r.value, name)
    ensures r.Some? ==> forall c :: c in categories && NameMatches(db, c, name) ==>
      !Ordering.LexLess(db.key(c.name), db.key(r.value.name))
    ensures r.None? ==> forall c :: c in categories ==> !NameMatches(db, c, name)
  {
    if categories == [] then None
    else
      var first := categories[0];
      var rest := FindCategoryNamed(categories[1..], name, db);
      assert forall c :: c in categories <==> c == first || c in categories[1..];
      if !NameMatches(db, first, name) then rest
      else if rest.None? then
        Ordering.LexLessIrreflexive(db.key(first.name));
        Some(first)
      else if Ordering.LexLess(db.key(rest.value.name), db.key(first.name)) then
        assert !Ordering.LexLess(db.key(first.name), db.key(rest.value.name)) by {
          if Ordering.LexLess(db.key(first.name), db.key(rest.value.name)) {
            Ordering.LexLessTransitive(db.key(first.name), db.key(rest.value.name), db.key(first.name));
            Ordering.LexLessIrreflexive(db.key(first.name));
          }
        }
        rest
      else
        FirstSortsFirst(categories[1..], name, db, first, rest.value);
        Ordering.LexLessIrreflexive(db.key(first.name));
        Some(first)
  }

  /** A row that sorts no later than the best match of the rest sorts no later than every
      match of the rest. */
  lemma FirstSortsFirst(rest: seq<Category>, name: string, db: Collation, first: Category, best: Category)
    requires forall c :: c in rest && NameMatches(db, c, name) ==> !Ordering.LexLess(db.key(c.name), db.key(best.name))
    requires !Ordering.LexLess(db.key(best.name), db.key(first.name))
    ensures forall c :: c in rest && NameMatches(db, c, name) ==> !Ordering.LexLess(db.key(c.name), db.key(first.name))
  {
    forall c | c in rest && NameMatches(db, c, name)
      ensures !Ordering.LexLess(db.key(c.name), db.key(first.name))
    {
      Ordering.NotBeforeChains(db.key(c.name), db.key(best.name), db.key(first.name));
    }
  }

  /** The category a post resolves to, and the category table afterwards. */
  function ResolveCategory(categories: seq<Category>, a: CategoryArg, db: Collation)
    : Result<(Category, seq<Category>), NewsError>
  {
    match Classify(a)
    case Err(e) => Err(e)
    case Ok(ByKey(id)) =>
      (match FindCategory(categories, id)
       case Some(c) => Ok((c, categories))
       case None => Err(CategoryNotFound))
    case Ok(ByName(name)) =>
      match FindCategoryNamed(categories, name, db)
      case Some(c) => Ok((c, categories))
      case None =>
        var c := Category(NextKey(categories, CategoryKey), name);
        Ok((c, categories + [c]))
  }

  /** An all-digit string, or a positive integer, names a category by key: an existing key
      resolves to that category and adds nothing; an unknown key is refused. */
  lemma ResolveByKey(categories: seq<Category>, a: CategoryArg, db: Collation)
    requires (a.StringArg? && IsDigitString(a.s)) || (a.IntArg? && a.n > 0)
    ensures var id := if a.IntArg? then a.n else ParseDecimal(a.s);
      var r := ResolveCategory(categories, a, db);
      && (r.Ok? <==> CategoryExists(categories, id))
      && (r.Err? ==> r.error == CategoryNotFound)
      && (r.Ok? ==> r.value.0 in categories && r.value.0.id == id && r.value.1 == categories)
  {
    var r := ResolveCategory(categories, a, db);
    if a.IntArg? {
      assert Classify(a) == Ok(ByKey(a.n));
    } else {
      assert Classify(a) == Ok(ByKey(ParseDecimal(a.s)));
    }
  }

  /** Any other non-empty string is a name: it is stripped, and when categories match it
      case-insensitively the one whose name sorts first is reused; otherwise exactly one
      category, with the stripped name and a fresh key, is added. */
  lemma ResolveByName(categories: seq<Category>, s: string, db: Collation)
    requires s != [] && !IsDigitString(s)
    ensures var r := ResolveCategory(categories, StringArg(s), db);
      && r.Ok?
      && ((exists c :: c in categories && NameMatches(db, c, Strip(s))) ==>
            && r.value.1 == categories && r.value.0 in categories && NameMatches(db, r.value.0, Strip(s))
            && (forall c :: c in categories && NameMatches(db, c, Strip(s)) ==>
                  !Ordering.LexLess(db.key(c.name), db.key(r.value.0.name))))
      && ((forall c :: c in categories ==> !NameMatches(db, c, Strip(s))) ==>
            && r.value.1 == categories + [r.value.0]
            && r.value.0.name == Strip(s)
            && (forall c :: c in categories ==> c.id < r.value.0.id))
  {
    assert Classify(StringArg(s)) == Ok(ByName(Strip(s)));
  }

  /** Resolving keeps the keys and the names unique: a new category is added only when no
      name matches it even case-insensitively, so in particular no name equals it. */
  lemma ResolveKeepsCategoriesValid(categories: seq<Category>, a: CategoryArg, db: Collation)
    requires KeysDistinct(categories, CategoryKey) && NamesUnique(categories)
    ensures var r := ResolveCategory(categories, a, db);
      r.Ok? ==> && KeysDistinct(r.value.1, CategoryKey) && NamesUnique(r.value.1)
                && r.value.0 in r.value.1
                && (forall c :: c in categories ==> c in r.value.1)
  {
    var r := ResolveCategory(categories, a, db);
    if r.Ok? && r.value.1 != categories {
      var c := r.value.0;
      var after := r.value.1;
      assert after == categories + [c];
      AppendNextKeyDistinct(categories, CategoryKey, c);
      forall i, j | 0 <= i < j < |after| ensures after[i].name != after[j].name {
        if j == |categories| {
          assert after[i] in categories;
        } else {
          assert after[i] == categories[i] && after[j] == categories[j];
        }
      }
    }
  }

  // ---------------------------------------------------------------------------
  // Creating news
  // ---------------------------------------------------------------------------

  /** The body of a news post besides `category`. */
  datatype NewsRequest = NewsRequest(category: CategoryArg, title: Supplied<string>, content: Supplied<string>)

  /** `NewsSerializer.is_valid` on the body without `category`: a title of at most 255
      characters and a content, both stripped, not blank and free of NUL. */
  function ValidateNews(req: NewsRequest): (r: Result<(string, string), NewsError>)
    ensures r.Ok? <==> && req.title.Given? && Strip(req.title.v) != [] && |Strip(req.title.v)| <= 255
                       && Nul !in Strip(req.title.v)
                       && req.content.Given? && Strip(req.content.v) != [] && Nul !in Strip(req.content.v)
    ensures r.Ok? ==> r.value == (Strip(req.title.v), Strip(req.content.v))
    ensures r.Err? ==> r.error.Invalid?
  {
    match CheckText(req.title, Some(255))
    case Err(e) => Err(Invalid(TitleField, e))
    case Ok(title) =>
      match CheckText(req.content, None)
      case Err(e) => Err(Invalid(ContentField, e))
      case Ok(content) => Ok((title, content))
  }

  /** `NewsCreateView.post` behind its permissions. The category is resolved, and possibly
      created, before the rest of the body is checked, so a refused body can leave a new
      category behind. */
  function CreateNews(t: NewsTables, me: Option<User>, req: NewsRequest, db: Collation, now: int)
    : (Result<News, NewsError>, NewsTables)
  {
    if me.None? then (Err(NotAuthenticated), t)
    else if !me.value.role.Teacher? then (Err(NotTeacher), t)
    else
      match ResolveCategory(t.categories, req.category, db)
      case Err(e) => (Err(e), t)
      case Ok((c, categories)) =>
        match ValidateNews(req)
        case Err(e) => (Err(e), t.(categories := categories))
        case Ok((title, content)) =>
          var n := News(NextKey(t.news, NewsKey), title, content, now, me.value.id, Some(c.id));
          (Ok(n), NewsTables(categories, t.news + [n]))
  }

  /** Only a signed-in teacher gets past the permissions; everyone else changes nothing. A
      missing or falsy `category`, an unknown key and a value of the wrong kind are refused
      before anything is written. */
  lemma CreateNewsRefusals(t: NewsTables, me: Option<User>, req: NewsRequest, db: Collation, now: int)
    ensures var (r, after) := CreateNews(t, me, req, db, now);
      && (me.None? ==> r == Err(NotAuthenticated) && after == t)
      && (me.Some? && !me.value.role.Teacher? ==> r == Err(NotTeacher) && after == t)
      && (r in {Err(CategoryRequired), Err(CategoryNotFound), Err(BadCategoryFormat)} ==> after == t)
      && (me.Some? && me.value.role.Teacher? && Falsy(req.category) ==> r == Err(CategoryRequired))
      && (me.Some? && me.value.role.Teacher? && (req.category == OtherArg(true) || (req.category.IntArg? && req.category.n < 0)) ==>
            r == Err(BadCategoryFormat))
  {
  }

  /** A successful post appends exactly one news item: written by the requester, filed under
      the resolved category, with the stripped title and content, published `now`, with a
      fresh key. The only other change is the category the name may have created. */
  lemma CreateNewsSuccess(t: NewsTables, me: Option<User>, req: NewsRequest, db: Collation, now: int)
    requires CreateNews(t, me, req, db, now).0.Ok?
    ensures var (r, after) := CreateNews(t, me, req, db, now);
      var n := r.value;
      && me.Some? && me.value.role.Teacher?
      && ResolveCategory(t.categories, req.category, db).Ok?
      && var (c, categories) := ResolveCategory(t.categories, req.category, db).value;
         && after == NewsTables(categories, t.news + [n])
         && n.authorId == me.value.id && n.categoryId == Some(c.id)
         && n.title == Strip(req.title.v) && n.content == Strip(req.content.v)
         && n.publishDate == now
         && (forall m :: m in t.news ==> m.id < n.id)
  {
  }

  /** As written, a body refused by the serializer still keeps a category its name created. */
  lemma RefusedBodyKeepsNewCategory(t: NewsTables, me: User, req: NewsRequest, db: Collation, now: int)
    requires me.role.Teacher? && req.category.StringArg? && req.category.s != [] && !IsDigitString(req.category.s)
    requires forall c :: c in t.categories ==> !NameMatches(db, c, Strip(req.category.s))
    requires ValidateNews(req).Err?
    ensures CreateNews(t, Some(me), req, db, now).0.Err?
    ensures |CreateNews(t, Some(me), req, db, now).1.categories| == |t.categories| + 1
    ensures CreateNews(t, Some(me), req, db, now).1.news == t.news
  {
    ResolveByName(t.categories, req.category.s, db);
  }

  /** Every outcome keeps the tables valid: keys distinct, category names unique, and every
      news item filed under an existing category. */
  lemma CreateNewsKeepsValid(t: NewsTables, me: Option<User>, req: NewsRequest, db: Collation, now: int)
    requires NewsValid(t)
    ensures NewsValid(CreateNews(t, me, req, db, now).1)
  {
    var (r, after) := CreateNews(t, me, req, db, now);
    if after != t {
      ResolveKeepsCategoriesValid(t.categories, req.category, db);
      var (c, categories) := ResolveCategory(t.categories, req.category, db).value;
      forall n | n in after.news && n.categoryId.Some? ensures CategoryExists(after.categories, n.categoryId.value) {
        if n in t.news {
          var d :| d in t.categories && d.id == n.categoryId.value;
          assert d in categories;
        } else {
          assert c in categories;
        }
      }
      if r.Ok? {
        AppendNextKeyDistinct(t.news, NewsKey, r.value);
      }
    }
  }

  // ---------------------------------------------------------------------------
  // The store
  // ---------------------------------------------------------------------------

  class NewsStore {
    var categories: seq<Category>
    var news: seq<News>

    function Tables(): NewsTables
      reads this
    {
      NewsTables(categories, news)
    }

    ghost predicate Valid()
      reads this
    {
      NewsValid(Tables())
    }

    constructor ()
      ensures Tables() == NewsTables([], []) && Valid()
    {
      categories := [];
      news := [];
    }

    /** `POST create/`: copy the body, take `category` out of it, resolve it, then validate and
        save the rest. */
    method Create(me: Option<User>, req: NewsRequest, db: Collation, now: int)
      returns (r: Result<News, NewsError>)
      requires Valid()
      modifies this
      ensures (r, Tables()) == CreateNews(old(Tables()), me, req, db, now)
      ensures Valid()
    {
      CreateNewsKeepsValid(Tables(), me, req, db, now);
      if me.None? {
        return Err(NotAuthenticated);
      }
      if !me.value.role.Teacher? {
        return Err(NotTeacher);
      }
      var resolved := ResolveCategory(categories, req.category, db);
      if resolved.Err? {
        return Err(resolved.error);
      }
      var (c, categories') := resolved.value;
      categories := categories';
      var body := ValidateNews(req);
      if body.Err? {
        return Err(body.error);
      }
      var (title, content) := body.value;
      var n := News(NextKey(news, NewsKey), title, content, now, me.value.id, Some(c.id));
      news := news + [n];
      r := Ok(n);
    }
  }
}
