/**
  Properties of the blog component over whole sessions: the user events the
  rendered page can produce, the id invariant they preserve, the fact that a
  deleted id never comes back, and how the handlers combine.
 */
module BlogAppProperties {
  import opened JsArray
  import opened JsString
  import opened BlogApp

  // ---------------------------------------------------------------------------
  // Sessions
  // ---------------------------------------------------------------------------

  /**
    One user action on the rendered page. Edit and delete buttons belong to the
    cards of the visible list, so a click names a position in that list.
   */
  datatype Event =
    | Change(field: Field, value: string)
    | Submit(date: string)
    | EditClicked(k: nat)
    | DeleteClicked(k: nat)
    | CancelClicked
    | SearchTyped(text: string)
    | FilterChosen(cat: string)

  /**
    The state after one event. A click on a card that is not shown, or on the
    cancel button outside edit mode (where it is not rendered), changes nothing.
   */
  function Apply(s: State, e: Event): (r: State)
    ensures e.EditClicked? ==>
              r == s || exists p :: p in Visible(s.posts, s.search, s.filterCat) && r == HandleEdit(s, p)
    ensures e.DeleteClicked? ==>
              r == s || exists p :: p in Visible(s.posts, s.search, s.filterCat) && r == HandleDelete(s, p.id)
    ensures e.CancelClicked? ==> r.editId == None && r.posts == s.posts && r.nextId == s.nextId
    ensures e.CancelClicked? && s.editId == None ==> r == s
  {
    match e
    case Change(field, value) => HandleChange(s, field, value)
    case Submit(date) => HandleSubmit(s, date)
    case EditClicked(k) => EditClick(s, k)
    case DeleteClicked(k) => DeleteClick(s, k)
    case CancelClicked => if s.editId.Some? then HandleCancel(s) else s
    case SearchTyped(text) => SetSearch(s, text)
    case FilterChosen(cat) => SetFilterCat(s, cat)
  }

  /** The edit button of the `k`-th visible card; there is no such button past the list. */
  function EditClick(s: State, k: nat): (r: State)
    ensures r == s || exists p :: p in Visible(s.posts, s.search, s.filterCat) && r == HandleEdit(s, p)
  {
    var shown := Visible(s.posts, s.search, s.filterCat);
    if k < |shown| then assert shown[k] in shown; HandleEdit(s, shown[k]) else s
  }

  /** The delete button of the `k`-th visible card; there is no such button past the list. */
  function DeleteClick(s: State, k: nat): (r: State)
    ensures r == s || exists p :: p in Visible(s.posts, s.search, s.filterCat) && r == HandleDelete(s, p.id)
  {
    var shown := Visible(s.posts, s.search, s.filterCat);
    if k < |shown| then assert shown[k] in shown; HandleDelete(s, shown[k].id) else s
  }

  /** The state after a sequence of events, in order. */
  function Run(s: State, events: seq<Event>): State
    decreases |events|
  {
    if |events| == 0 then s else Run(Apply(s, events[0]), events[1..])
  }

  // ---------------------------------------------------------------------------
  // The id invariant
  // ---------------------------------------------------------------------------

  /** The seed posts have ids 1, 2, 3 and the counter starts at 4. */
  lemma InitialInv()
    ensures Inv(Initial)
    ensures |Initial.posts| == 3 && Initial.nextId == 4
  {
    var ps := Initial.posts;
    assert ps[0].id == 1 && ps[1].id == 2 && ps[2].id == 3;
  }

  /** The first render: no edit target, the empty form, an empty search and every category shown. */
  lemma InitialState()
    ensures Initial.posts == InitialPosts
    ensures Initial.form == Form("", "", "", "Technologie") && Initial.editId == None
    ensures Initial.search == "" && Initial.filterCat == "Tous"
  {
  }

  /** Every event keeps ids unique, below the counter, and never lowers the counter. */
  lemma ApplyPreservesInv(s: State, e: Event)
    requires Inv(s)
    ensures Inv(Apply(s, e))
    ensures Apply(s, e).nextId >= s.nextId
  {
    match e
    case EditClicked(k) => EditClickKeepsInv(s, k);
    case DeleteClicked(k) => DeleteClickKeepsInv(s, k);
    case Submit(date) => assert Apply(s, e) == HandleSubmit(s, date);
    case _ =>
  }

  lemma EditClickKeepsInv(s: State, k: nat)
    requires Inv(s)
    ensures Inv(EditClick(s, k)) && EditClick(s, k).nextId == s.nextId
  {
    var shown := Visible(s.posts, s.search, s.filterCat);
    if k < |shown| {
      EditKeepsInv(s, shown[k]);
    }
  }

  lemma DeleteClickKeepsInv(s: State, k: nat)
    requires Inv(s)
    ensures Inv(DeleteClick(s, k)) && DeleteClick(s, k).nextId == s.nextId
  {
    var shown := Visible(s.posts, s.search, s.filterCat);
    if k < |shown| {
      DeleteKeepsInv(s, shown[k].id);
    }
  }

  /** Editing a post of the list keeps the invariant: its id was handed out by the counter. */
  lemma EditKeepsInv(s: State, p: Post)
    requires Inv(s) && p in s.posts
    ensures Inv(HandleEdit(s, p))
  {
  }

  /** Deleting keeps the remaining ids unique and below the counter. */
  lemma DeleteKeepsInv(s: State, id: nat)
    requires Inv(s)
    ensures Inv(HandleDelete(s, id))
  {
    var r := HandleDelete(s, id).posts;
    forall i | 0 <= i < |r| ensures r[i].id < s.nextId {
      assert r[i] in s.posts;
    }
    forall i, j | 0 <= i < j < |r| ensures r[i].id != r[j].id {
      SubsequenceIndices(r, s.posts, i, j);
    }
  }

  /** Two distinct positions of a subsequence come from two distinct positions of the list. */
  lemma {:induction false} SubsequenceIndices(a: seq<Post>, b: seq<Post>, i: int, j: int)
    requires IsSubsequence(a, b) && 0 <= i < j < |a|
    ensures exists i', j' :: 0 <= i' < j' < |b| && b[i'] == a[i] && b[j'] == a[j]
    decreases |b|
  {
    if a[0] == b[0] && IsSubsequence(a[1..], b[1..]) {
      if i == 0 {
        assert a[j] == a[1..][j - 1];
        assert a[j] in b[1..] by { SubsequenceMember(a[1..], b[1..], j - 1); }
        var j' :| 0 <= j' < |b[1..]| && b[1..][j'] == a[j];
        assert b[0] == a[0] && b[j' + 1] == a[j];
      } else {
        SubsequenceIndices(a[1..], b[1..], i - 1, j - 1);
        var i', j' :| 0 <= i' < j' < |b[1..]| && b[1..][i'] == a[1..][i - 1] && b[1..][j'] == a[1..][j - 1];
        assert b[i' + 1] == a[i] && b[j' + 1] == a[j];
      }
    } else {
      SubsequenceIndices(a, b[1..], i, j);
      var i', j' :| 0 <= i' < j' < |b[1..]| && b[1..][i'] == a[i] && b[1..][j'] == a[j];
      assert b[i' + 1] == a[i] && b[j' + 1] == a[j];
    }
  }

  /** An element of a subsequence occurs at some position of the list. */
  lemma {:induction false} SubsequenceMember(a: seq<Post>, b: seq<Post>, i: int)
    requires IsSubsequence(a, b) && 0 <= i < |a|
    ensures a[i] in b
    decreases |b|
  {
    if a[0] == b[0] && IsSubsequence(a[1..], b[1..]) {
      if i > 0 {
        SubsequenceMember(a[1..], b[1..], i - 1);
      }
    } else {
      SubsequenceMember(a, b[1..], i);
    }
  }

  /** Every state a session reaches from the seed state satisfies the invariant. */
  lemma {:induction false} RunPreservesInv(s: State, events: seq<Event>)
    requires Inv(s)
    ensures Inv(Run(s, events))
    ensures Run(s, events).nextId >= s.nextId
    decreases |events|
  {
    if |events| > 0 {
      ApplyPreservesInv(s, events[0]);
      RunPreservesInv(Apply(s, events[0]), events[1..]);
    }
  }

  /**
    Whatever the user does, the posts on the page carry pairwise distinct ids
    (with ids as unbounded naturals, not JavaScript Numbers).
   */
  lemma ReachableIdsUnique(events: seq<Event>)
    ensures IdsUnique(Run(Initial, events).posts)
  {
    InitialInv();
    RunPreservesInv(Initial, events);
  }

  // ---------------------------------------------------------------------------
  // Ids are never reused
  // ---------------------------------------------------------------------------

  /** One event never gives a post an id that is below the counter and carried by none. */
  lemma ApplyKeepsIdAbsent(s: State, e: Event, id: nat)
    requires id < s.nextId && !HasId(s.posts, id)
    ensures id < Apply(s, e).nextId && !HasId(Apply(s, e).posts, id)
  {
    match e
    case Submit(date) => SubmitKeepsIdAbsent(s, date, id);
    case DeleteClicked(k) =>
      var shown := Visible(s.posts, s.search, s.filterCat);
      if k < |shown| {
        var r := HandleDelete(s, shown[k].id);
        forall i | 0 <= i < |r.posts| ensures r.posts[i].id != id {
          assert r.posts[i] in s.posts;
        }
      }
    case _ =>
  }

  lemma SubmitKeepsIdAbsent(s: State, date: string, id: nat)
    requires id < s.nextId && !HasId(s.posts, id)
    ensures id < HandleSubmit(s, date).nextId && !HasId(HandleSubmit(s, date).posts, id)
  {
    if Submittable(s.form) {
      match s.editId
      case None => CreateKeepsIdAbsent(s, date, id);
      case Some(target) => EditKeepsIdAbsent(s, target, id);
    }
  }

  lemma CreateKeepsIdAbsent(s: State, date: string, id: nat)
    requires id < s.nextId && !HasId(s.posts, id)
    ensures id < SubmitCreate(s, date).nextId && !HasId(SubmitCreate(s, date).posts, id)
  {
    var r := SubmitCreate(s, date);
    forall i | 0 <= i < |r.posts| ensures r.posts[i].id != id {
      if i > 0 {
        assert r.posts[i] == r.posts[1..][i - 1];
      }
    }
  }

  lemma EditKeepsIdAbsent(s: State, target: nat, id: nat)
    requires id < s.nextId && !HasId(s.posts, id)
    ensures id < SubmitEdit(s, target).nextId && !HasId(SubmitEdit(s, target).posts, id)
  {
    var r := SubmitEdit(s, target);
    forall i | 0 <= i < |r.posts| ensures r.posts[i].id != id {
      assert r.posts[i].id == s.posts[i].id;
    }
  }

  /** An id below the counter that no post carries is never carried by a post again. */
  lemma {:induction false} AbsentIdStaysAbsent(s: State, events: seq<Event>, id: nat)
    requires id < s.nextId && !HasId(s.posts, id)
    ensures !HasId(Run(s, events).posts, id)
    decreases |events|
  {
    if |events| > 0 {
      ApplyKeepsIdAbsent(s, events[0], id);
      AbsentIdStaysAbsent(Apply(s, events[0]), events[1..], id);
    }
  }

  /** Once a post is deleted, no later post ever gets its id. */
  lemma DeletedIdNeverReturns(s: State, id: nat, events: seq<Event>)
    requires Inv(s) && HasId(s.posts, id)
    ensures !HasId(Run(HandleDelete(s, id), events).posts, id)
  {
    AbsentIdStaysAbsent(HandleDelete(s, id), events, id);
  }

  // ---------------------------------------------------------------------------
  // Delete, edit and submit together
  // ---------------------------------------------------------------------------

  /** With unique ids, deleting the id at position `k` cuts out exactly that post. */
  lemma DeleteRemovesExactlyOne(s: State, k: int)
    requires Inv(s) && 0 <= k < |s.posts|
    ensures HandleDelete(s, s.posts[k].id).posts == s.posts[..k] + s.posts[k + 1..]
  {
    var id := s.posts[k].id;
    FilterDropsOne(s.posts, (p: Post) => p.id != id, k);
  }

  /**
    Deleting the post being edited leaves the edit target in place, so the next
    submit is an edit of a missing id: the list stays as it is, the form resets.
   */
  lemma DeleteThenSubmitChangesNothing(s: State, date: string)
    requires s.editId.Some?
    ensures var t := HandleDelete(s, s.editId.value);
            HandleSubmit(t, date).posts == t.posts && HandleSubmit(t, date).nextId == t.nextId
    ensures var t := HandleDelete(s, s.editId.value);
            Submittable(s.form) ==> HandleSubmit(t, date).form == EmptyForm && HandleSubmit(t, date).editId == None
  {
  }

  /**
    Editing a post and submitting its own fields unchanged gives back the same
    list; the submit leaves edit mode unless the post's fields are blank.
   */
  lemma EditThenSubmitUnchanged(s: State, k: int, date: string)
    requires Inv(s) && 0 <= k < |s.posts|
    ensures HandleSubmit(HandleEdit(s, s.posts[k]), date).posts == s.posts
    ensures Submittable(FormOf(s.posts[k])) ==>
              HandleSubmit(HandleEdit(s, s.posts[k]), date).editId == None
  {
    var t := HandleEdit(s, s.posts[k]);
    if Submittable(t.form) {
      var r := SubmitEdit(t, s.posts[k].id);
      forall i | 0 <= i < |s.posts| ensures r.posts[i] == s.posts[i] {
        if s.posts[i].id == s.posts[k].id {
          assert i == k;
        }
      }
    }
  }

  /** Cancelling an edit discards it: back to create mode, the list and counter as they were. */
  lemma EditThenCancel(s: State, p: Post)
    ensures HandleCancel(HandleEdit(s, p)) == s.(editId := None, form := EmptyForm)
  {
  }

  // ---------------------------------------------------------------------------
  // The visible list
  // ---------------------------------------------------------------------------

  /** An empty search with the "every category" filter shows every post. */
  lemma {:induction false} VisibleAllByDefault(posts: seq<Post>)
    ensures Visible(posts, "", AllCategories) == posts
  {
    forall i | 0 <= i < |posts| ensures IsVisible(posts[i], "", AllCategories) {
      assert Lower("") == "";
      IncludesEmpty(Lower(posts[i].title));
    }
    FilterKeepsAll(posts, (p: Post) => IsVisible(p, "", AllCategories));
  }

  /**
    The search is case-insensitive: typing it upper- or lower-case shows the same
    posts, for the ASCII and Latin-1 case pairs the model maps.
   */
  lemma SearchIgnoresCase(posts: seq<Post>, search: string, filterCat: string)
    ensures Visible(posts, Upper(search), filterCat) == Visible(posts, search, filterCat)
    ensures Visible(posts, Lower(search), filterCat) == Visible(posts, search, filterCat)
  {
    LowerForgetsCase(search);
    FilterCongruent(posts, (p: Post) => IsVisible(p, Upper(search), filterCat),
                           (p: Post) => IsVisible(p, search, filterCat));
    FilterCongruent(posts, (p: Post) => IsVisible(p, Lower(search), filterCat),
                           (p: Post) => IsVisible(p, search, filterCat));
  }

  // ---------------------------------------------------------------------------
  // Worked examples
  // ---------------------------------------------------------------------------

  /** The example in the documentation of `initials`. */
  lemma InitialsExample()
    ensures Initials("Léa Moreau") == "LM"
  {
    WordStartsOfExample();
    InitialsOfTwoWords("Léa Moreau", 'L', 'M');
  }

  /** The two words of the example name begin with `L` and `M`. */
  lemma WordStartsOfExample()
    ensures WordStarts("Léa Moreau", true) == "LM"
  {
    var name := "Léa Moreau";
    assert name == "Léa" + (" " + "Moreau");
    WordStartsOfWord("Léa", " " + "Moreau", true);
    assert (" " + "Moreau")[1..] == "Moreau";
    WordStartsOfWord("Moreau", "", true);
    assert "Moreau" + "" == "Moreau";
  }

  /** A name whose word starts are two capitals has those two capitals as initials. */
  lemma InitialsOfTwoWords(name: string, a: char, b: char)
    requires WordStarts(name, true) == [a, b]
    requires !IsLowerLetter(a) && !IsLowerLetter(b)
    ensures Initials(name) == [a, b]
  {
    var r := Initials(name);
    assert |r| == 2 && r[0] == a && r[1] == b;
  }

  /** A word without spaces contributes its first character when it begins at a word start. */
  lemma {:induction false} WordStartsOfWord(w: string, rest: string, atWordStart: bool)
    requires ' ' !in w
    ensures WordStarts(w + rest, atWordStart) ==
              (if atWordStart && |w| > 0 then [w[0]] else "") + WordStarts(rest, atWordStart && |w| == 0)
    decreases |w|
  {
    if |w| > 0 {
      assert (w + rest)[0] == w[0] && (w + rest)[1..] == w[1..] + rest;
      WordStartsOfWord(w[1..], rest, false);
    } else {
      assert w + rest == rest;
    }
  }

  const Alpha: Post := Post(1, "Alpha", "x", "Bob", "Technologie", "d")
  const Beta: Post := Post(2, "Beta", "y", "Alice", "Design", "d")

  /** Searching "a" in every category finds both posts ("Alpha" and "Alice"). */
  lemma VisibleExampleBoth()
    ensures Visible([Alpha, Beta], "a", AllCategories) == [Alpha, Beta]
  {
    assert Lower("Alpha") == "alpha" && Includes("alpha", "a");
    assert Lower("Beta") == "beta" && Includes("beta", "a") by {
      assert "beta"[1..] == "eta" && "eta"[1..] == "ta" && "ta"[1..] == "a";
    }
    assert Lower("a") == "a";
    FilterKeepsAll([Alpha, Beta], (p: Post) => IsVisible(p, "a", AllCategories));
  }

  /** Searching "alice" in "Design" finds only the second post. */
  lemma VisibleExampleOne()
    ensures Visible([Alpha, Beta], "alice", "Design") == [Beta]
  {
    var keep := (p: Post) => IsVisible(p, "alice", "Design");
    assert !keep(Alpha) by { assert !MatchesCategory(Alpha, "Design"); }
    assert keep(Beta) by {
      assert Lower("alice") == "alice" && Lower("Alice") == "alice";
      assert Includes("alice", "alice");
    }
    assert [Alpha, Beta][1..] == [Beta];
    FilterKeepsAll([Beta], keep);
  }

  /** Searching "zzz" finds nothing, whatever category is chosen. */
  lemma VisibleExampleNone(filterCat: string)
    ensures Visible([Alpha, Beta], "zzz", filterCat) == []
  {
    var keep := (p: Post) => IsVisible(p, "zzz", filterCat);
    HiddenWithoutZ(Alpha, filterCat);
    HiddenWithoutZ(Beta, filterCat);
    assert [Alpha, Beta][1..] == [Beta];
    assert Filter([Beta], keep) == [];
  }

  /** A post with no 'z' or 'Z' in its title or author is hidden by the search "zzz", under any filter. */
  lemma HiddenWithoutZ(p: Post, filterCat: string)
    requires 'z' !in p.title && 'Z' !in p.title && 'z' !in p.author && 'Z' !in p.author
    ensures !IsVisible(p, "zzz", filterCat)
  {
    assert Lower("zzz") == "zzz";
    NoZAfterLower(p.title);
    NoZAfterLower(p.author);
    NotIncludesMissingChar(Lower(p.title), "zzz");
    NotIncludesMissingChar(Lower(p.author), "zzz");
  }

  /** Only 'z' and 'Z' lower-case to 'z'. */
  lemma NoZAfterLower(t: string)
    requires 'z' !in t && 'Z' !in t
    ensures 'z' !in Lower(t)
  {
    forall i | 0 <= i < |t| ensures Lower(t)[i] != 'z' {
      assert t[i] != 'z' && t[i] != 'Z';
    }
  }

  /** A string without the first character of `q` does not include a non-empty `q`. */
  lemma {:induction false} NotIncludesMissingChar(t: string, q: string)
    requires |q| > 0 && q[0] !in t
    ensures !Includes(t, q)
    decreases |t|
  {
    if |t| > 0 {
      if |q| <= |t| {
        assert t[..|q|][0] != q[0];
      }
      NotIncludesMissingChar(t[1..], q);
    }
  }
}
