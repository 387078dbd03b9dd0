/**
  The post-management state of the `BlogApp` component: the post list, the id
  counter, the form, the optional edit target, the search text and the category
  filter, with each event handler as a pure transition on that record and the
  visible-list projection as a pure function of it.
 */
module BlogApp {
  import opened JsArray
  import opened JsString

  datatype Option<T> = None | Some(value: T)

  // ---------------------------------------------------------------------------
  // Data model
  // ---------------------------------------------------------------------------

  /** The categories a post may carry, in the order the form offers them. */
  const Categories: seq<string> :=
    ["Technologie", "Design", "Science", "Culture", "Voyage", "Lifestyle"]

  /** The category-filter value that stands for "every category". */
  const AllCategories: string := "Tous"

  datatype Post = Post(id: nat, title: string, content: string, author: string,
                       category: string, date: string)

  /** The four fields the form edits; `id` and `date` are never in it. */
  datatype Form = Form(title: string, content: string, author: string, category: string)

  /** The `name` attribute of the form control that fired a change event. */
  datatype Field = Title | Content | Author | Category

  datatype State = State(
    posts: seq<Post>,
    nextId: nat,          // the module-level counter; the next post created gets this id
    form: Form,
    editId: Option<nat>,  // None: create mode; Some(id): editing the post with that id
    search: string,
    filterCat: string)

  /** The form with three empty text fields and the first category. */
  const EmptyForm: Form := Form("", "", "", Categories[0])

  const InitialPosts: seq<Post> := [
    Post(1, "L'essor du design brutaliste en 2025",
         "Le brutalisme numérique revient en force avec des interfaces audacieuses, crues et intentionnellement déstabilisantes. Une réaction directe à l'uniformisation des UI kits modernes.",
         "Léa Moreau", "Design", "15 Fév. 2025"),
    Post(2, "IA générative : où en sommes-nous vraiment ?",
         "Au-delà du battage médiatique, l'IA générative s'intègre discrètement dans les workflows créatifs. Les équipes qui gagnent sont celles qui l'utilisent comme copilote, pas comme remplacement.",
         "Omar Diallo", "Technologie", "10 Fév. 2025"),
    Post(3, "Slow travel : redécouvrir l'art de partir",
         "Voyager moins vite, mais mieux. Le slow travel invite à s'immerger dans un territoire plutôt que de le consommer. Une philosophie qui transforme le regard sur l'ailleurs.",
         "Nina Bauer", "Voyage", "3 Fév. 2025")
  ]

  /** The state on first render: the three sample posts and a counter at 4. */
  const Initial: State := State(InitialPosts, 4, EmptyForm, None, "", AllCategories)

  /** The form field named `field`. */
  function FieldOf(f: Form, field: Field): string {
    match field
    case Title => f.title
    case Content => f.content
    case Author => f.author
    case Category => f.category
  }

  /** `{ ...f, [field]: value }`. */
  function SetField(f: Form, field: Field, value: string): (r: Form)
    ensures FieldOf(r, field) == value
    ensures forall other :: other != field ==> FieldOf(r, other) == FieldOf(f, other)
  {
    match field
    case Title => f.(title := value)
    case Content => f.(content := value)
    case Author => f.(author := value)
    case Category => f.(category := value)
  }

  /** The four editable fields of a post, as the form holds them. */
  function FormOf(p: Post): Form {
    Form(p.title, p.content, p.author, p.category)
  }

  /** `{ ...p, ...f }`: the post with its editable fields taken from the form. */
  function Overwrite(p: Post, f: Form): (r: Post)
    ensures FormOf(r) == f && r.id == p.id && r.date == p.date
  {
    p.(title := f.title, content := f.content, author := f.author, category := f.category)
  }

  /** Some post in the list has id `id`. */
  predicate HasId(posts: seq<Post>, id: nat) {
    exists i :: 0 <= i < |posts| && posts[i].id == id
  }

  /** No two positions of the list hold the same id. */
  predicate IdsUnique(posts: seq<Post>) {
    forall i, j :: 0 <= i < j < |posts| ==> posts[i].id != posts[j].id
  }

  /** Every id in the list is below `bound`. */
  predicate IdsBelow(posts: seq<Post>, bound: nat) {
    forall i :: 0 <= i < |posts| ==> posts[i].id < bound
  }

  /**
    The state invariant: ids are unique, the counter exceeds every stored id,
    and an edit target, when there is one, is an id the counter already handed out.
   */
  predicate Inv(s: State) {
    && IdsUnique(s.posts)
    && IdsBelow(s.posts, s.nextId)
    && (s.editId.Some? ==> s.editId.value < s.nextId)
  }

  // ---------------------------------------------------------------------------
  // Store operations
  // ---------------------------------------------------------------------------

  /** `p.map(post => post.id === id ? { ...post, ...f } : post)`. */
  function UpdatePosts(posts: seq<Post>, id: nat, f: Form): (r: seq<Post>)
    ensures |r| == |posts|
    ensures forall i :: 0 <= i < |posts| ==> r[i].id == posts[i].id && r[i].date == posts[i].date
    ensures forall i :: 0 <= i < |posts| && posts[i].id == id ==> FormOf(r[i]) == f
    ensures forall i :: 0 <= i < |posts| && posts[i].id != id ==> r[i] == posts[i]
    ensures !HasId(posts, id) ==> r == posts
  {
    Map(posts, (p: Post) => if p.id == id then Overwrite(p, f) else p)
  }

  /** `p.filter(post => post.id !== id)`. */
  function DeletePosts(posts: seq<Post>, id: nat): (r: seq<Post>)
    ensures IsSubsequence(r, posts)
    ensures !HasId(r, id)
    ensures forall p :: p in r <==> p in posts && p.id != id
    ensures forall p :: multiset(r)[p] == if p.id == id then 0 else multiset(posts)[p]
    ensures !HasId(posts, id) ==> r == posts
  {
    var keep := (p: Post) => p.id != id;
    var r := Filter(posts, keep);
    assert forall i :: 0 <= i < |r| ==> r[i] in r;
    if !HasId(posts, id) then FilterKeepsAll(posts, keep); r else r
  }

  // ---------------------------------------------------------------------------
  // Event handlers
  // ---------------------------------------------------------------------------

  /** The check `handleSubmit` makes: title, content and author are not blank. */
  predicate Submittable(f: Form)
    ensures Submittable(f) ==> |f.title| > 0 && |f.content| > 0 && |f.author| > 0
  {
    !IsBlank(f.title) && !IsBlank(f.content) && !IsBlank(f.author)
  }

  /** The guard accepts the form exactly when none of the three trimmed fields is empty. */
  lemma SubmittableIffTrimmed(f: Form)
    ensures Submittable(f) <==> Trim(f.title) != [] && Trim(f.content) != [] && Trim(f.author) != []
  {
    BlankIffTrimEmpty(f.title);
    BlankIffTrimEmpty(f.content);
    BlankIffTrimEmpty(f.author);
  }

  /** `handleChange`: the named form field takes the new value; nothing else changes. */
  function HandleChange(s: State, field: Field, value: string): (r: State)
    ensures FieldOf(r.form, field) == value
    ensures forall other :: other != field ==> FieldOf(r.form, other) == FieldOf(s.form, other)
    ensures r.posts == s.posts && r.nextId == s.nextId && r.editId == s.editId
    ensures r.search == s.search && r.filterCat == s.filterCat
  {
    s.(form := SetField(s.form, field, value))
  }

  /** The create branch of `handleSubmit`: a post with the counter's id goes in front. */
  function SubmitCreate(s: State, date: string): (r: State)
    ensures |r.posts| == |s.posts| + 1
    ensures r.posts[0].id == s.nextId && FormOf(r.posts[0]) == s.form && r.posts[0].date == date
    ensures r.posts[1..] == s.posts
    ensures r.nextId == s.nextId + 1
    ensures r.form == EmptyForm && r.editId == s.editId
    ensures r.search == s.search && r.filterCat == s.filterCat
    ensures Inv(s) ==> !HasId(s.posts, r.posts[0].id) && IdsUnique(r.posts) && IdsBelow(r.posts, r.nextId)
  {
    var p := Post(s.nextId, s.form.title, s.form.content, s.form.author, s.form.category, date);
    var posts := [p] + s.posts;
    assert posts[1..] == s.posts;
    assert Inv(s) ==> IdsUnique(posts) by {
      if Inv(s) {
        forall i, j | 0 <= i < j < |posts| ensures posts[i].id != posts[j].id {
          if i > 0 { assert posts[i] == s.posts[i - 1]; }
          assert posts[j] == s.posts[j - 1];
        }
      }
    }
    s.(posts := posts, nextId := s.nextId + 1, form := EmptyForm)
  }

  /** The edit branch of `handleSubmit`: the target post takes the form's fields in place. */
  function SubmitEdit(s: State, id: nat): (r: State)
    ensures |r.posts| == |s.posts|
    ensures forall i :: 0 <= i < |s.posts| ==>
              r.posts[i].id == s.posts[i].id && r.posts[i].date == s.posts[i].date
    ensures forall i :: 0 <= i < |s.posts| && s.posts[i].id == id ==> FormOf(r.posts[i]) == s.form
    ensures forall i :: 0 <= i < |s.posts| && s.posts[i].id != id ==> r.posts[i] == s.posts[i]
    ensures !HasId(s.posts, id) ==> r.posts == s.posts
    ensures r.nextId == s.nextId && r.form == EmptyForm && r.editId == None
    ensures r.search == s.search && r.filterCat == s.filterCat
    ensures IdsUnique(s.posts) ==> IdsUnique(r.posts)
    ensures IdsBelow(s.posts, s.nextId) ==> IdsBelow(r.posts, r.nextId)
  {
    s.(posts := UpdatePosts(s.posts, id, s.form), editId := None, form := EmptyForm)
  }

  /**
    `handleSubmit`, with `date` standing for the current date as `formatDate`
    renders it. A blank title, content or author leaves the state as it was;
    otherwise the edit target is updated in place, or a new post with the
    counter's id is put in front, and the form returns to create mode.
   */
  function HandleSubmit(s: State, date: string): (r: State)
    ensures !Submittable(s.form) ==> r == s
    ensures Submittable(s.form) ==> r.form == EmptyForm && r.editId == None
    ensures r.search == s.search && r.filterCat == s.filterCat
    ensures Submittable(s.form) && s.editId == None ==>
      && |r.posts| == |s.posts| + 1
      && r.posts[0].id == s.nextId && FormOf(r.posts[0]) == s.form && r.posts[0].date == date
      && r.posts[1..] == s.posts
      && r.nextId == s.nextId + 1
    ensures Submittable(s.form) && s.editId.Some? ==>
      && r.nextId == s.nextId
      && |r.posts| == |s.posts|
      && (forall i :: 0 <= i < |s.posts| ==>
            r.posts[i].id == s.posts[i].id && r.posts[i].date == s.posts[i].date)
      && (forall i :: 0 <= i < |s.posts| && s.posts[i].id == s.editId.value ==>
            FormOf(r.posts[i]) == s.form)
      && (forall i :: 0 <= i < |s.posts| && s.posts[i].id != s.editId.value ==>
            r.posts[i] == s.posts[i])
      && (!HasId(s.posts, s.editId.value) ==> r.posts == s.posts)
    ensures Inv(s) ==> Inv(r)
    ensures Inv(s) && Submittable(s.form) && s.editId == None ==> !HasId(s.posts, r.posts[0].id)
  {
    if !Submittable(s.form) then s
    else match s.editId
      case Some(id) => SubmitEdit(s, id)
      case None => SubmitCreate(s, date)
  }

  /** `handleEdit(post)`: enter edit mode on `post`, copying its four editable fields. */
  function HandleEdit(s: State, post: Post): (r: State)
    ensures r.editId == Some(post.id) && r.form == FormOf(post)
    ensures r.posts == s.posts && r.nextId == s.nextId
    ensures r.search == s.search && r.filterCat == s.filterCat
  {
    s.(editId := Some(post.id), form := FormOf(post))
  }

  /** `handleDelete(id)`: drop the posts with that id; the edit target is left as it is. */
  function HandleDelete(s: State, id: nat): (r: State)
    ensures IsSubsequence(r.posts, s.posts) && !HasId(r.posts, id)
    ensures forall p :: p in r.posts <==> p in s.posts && p.id != id
    ensures forall p :: multiset(r.posts)[p] == if p.id == id then 0 else multiset(s.posts)[p]
    ensures !HasId(s.posts, id) ==> r.posts == s.posts
    ensures r.nextId == s.nextId && r.form == s.form && r.editId == s.editId
    ensures r.search == s.search && r.filterCat == s.filterCat
  {
    s.(posts := DeletePosts(s.posts, id))
  }

  /** `handleCancel`: leave edit mode and empty the form; the posts are untouched. */
  function HandleCancel(s: State): (r: State)
    ensures r.editId == None && r.form == EmptyForm
    ensures r.posts == s.posts && r.nextId == s.nextId
    ensures r.search == s.search && r.filterCat == s.filterCat
  {
    s.(editId := None, form := EmptyForm)
  }

  /** The search box's change handler. */
  function SetSearch(s: State, text: string): (r: State)
    ensures r.search == text
    ensures r.posts == s.posts && r.nextId == s.nextId && r.form == s.form
    ensures r.editId == s.editId && r.filterCat == s.filterCat
  {
    s.(search := text)
  }

  /** The category filter's change handler. */
  function SetFilterCat(s: State, cat: string): (r: State)
    ensures r.filterCat == cat
    ensures r.posts == s.posts && r.nextId == s.nextId && r.form == s.form
    ensures r.editId == s.editId && r.search == s.search
  {
    s.(filterCat := cat)
  }

  // ---------------------------------------------------------------------------
  // Visible-list projection
  // ---------------------------------------------------------------------------

  /** The lower-cased title or author contains the lower-cased search text. */
  predicate MatchesSearch(p: Post, search: string) {
    var q := Lower(search);
    Includes(Lower(p.title), q) || Includes(Lower(p.author), q)
  }

  /** The filter is the "every category" sentinel or the post's own category. */
  predicate MatchesCategory(p: Post, filterCat: string) {
    filterCat == AllCategories || p.category == filterCat
  }

  predicate IsVisible(p: Post, search: string, filterCat: string) {
    MatchesSearch(p, search) && MatchesCategory(p, filterCat)
  }

  /** `filtered`: the posts the grid shows, in store order. */
  function Visible(posts: seq<Post>, search: string, filterCat: string): (r: seq<Post>)
    ensures IsSubsequence(r, posts)
    ensures forall p :: p in r <==> p in posts && IsVisible(p, search, filterCat)
    ensures forall p :: multiset(r)[p] ==
                        (if IsVisible(p, search, filterCat) then multiset(posts)[p] else 0)
  {
    Filter(posts, (p: Post) => IsVisible(p, search, filterCat))
  }

  // ---------------------------------------------------------------------------
  // initials
  // ---------------------------------------------------------------------------

  /**
    The first character of every piece, concatenated. An empty piece has no
    first character (`n[0]` is `undefined`) and `join("")` renders it as "".
   */
  function FirstChars(parts: seq<string>): (r: string)
    ensures |r| <= |parts|
    ensures |parts| > 0 && |parts[0]| > 0 ==> |r| > 0 && r[0] == parts[0][0]
    ensures (forall k :: 0 <= k < |parts| ==> |parts[k]| > 0) ==> |r| == |parts|
    decreases |parts|
  {
    if |parts| == 0 then ""
    else (if |parts[0]| > 0 then [parts[0][0]] else "") + FirstChars(parts[1..])
  }

  /**
    The characters of `s` that begin a word: non-spaces at the start of `s`
    (when `atWordStart`) or right after a space.
   */
  function WordStarts(s: string, atWordStart: bool): string
    decreases |s|
  {
    if |s| == 0 then ""
    else if s[0] == ' ' then WordStarts(s[1..], true)
    else (if atWordStart then [s[0]] else "") + WordStarts(s[1..], false)
  }

  /** Taking first characters of the pieces of `split(" ")` finds exactly the word starts. */
  lemma {:induction false} FirstCharsOfSplit(s: string)
    ensures FirstChars(Split(s)) == WordStarts(s, true)
    ensures FirstChars(Split(s)[1..]) == WordStarts(s, false)
    decreases |s|
  {
    if |s| > 0 {
      var rest := Split(s[1..]);
      FirstCharsOfSplit(s[1..]);
      if s[0] == ' ' {
        var parts := [""] + rest;
        assert parts[1..] == rest;
      } else {
        var parts := [[s[0]] + rest[0]] + rest[1..];
        assert parts[0][0] == s[0] && parts[1..] == rest[1..];
      }
    }
  }

  /**
    `initials(name)`: the upper-cased first letters of the space-separated
    words of `name`, at most two of them.
   */
  function Initials(name: string): (r: string)
    ensures |r| == if |WordStarts(name, true)| < 2 then |WordStarts(name, true)| else 2
    ensures forall k :: 0 <= k < |r| ==> r[k] == UpperChar(WordStarts(name, true)[k])
  {
    FirstCharsOfSplit(name);
    var u := Upper(FirstChars(Split(name)));
    if |u| <= 2 then u else u[..2]
  }
}
