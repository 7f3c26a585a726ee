/**
 * The post collection of the calendar page: the records, the per-day chip
 * selection, and the two mutations (save from the add-post modal, delete
 * from the view modal). Ids, the clicked date and the answer to the
 * confirmation prompt are parameters.
 */
module Posts {
  import opened Wrappers
  import opened Seqs

  /** One calendar entry. `date` is the key of the cell it was added from. */
  datatype Post = Post(id: int, title: string, detail: string, date: string)

  /** Why a save was refused: the page alerts and leaves the collection alone. */
  datatype SaveError = EmptyTitle

  /** The posts shown as chips in the cell whose key is `key`, in collection order. */
  function ChipsFor(posts: seq<Post>, key: string): (r: seq<Post>)
    ensures |r| <= |posts|
    ensures forall i :: 0 <= i < |r| ==> r[i].date == key && r[i] in posts
    ensures forall i :: 0 <= i < |posts| && posts[i].date == key ==> posts[i] in r
  {
    Filter(posts, (p: Post) => p.date == key)
  }

  /** A post drawn as a chip of `key` is a post of the collection dated `key`. */
  lemma ChipMatchesKey(posts: seq<Post>, key: string, p: Post)
    requires p in ChipsFor(posts, key)
    ensures p in posts && p.date == key
  {
    var r := ChipsFor(posts, key);
    var i :| 0 <= i < |r| && r[i] == p;
  }

  /** The posts that carry id `id`. */
  function WithId(posts: seq<Post>, id: int): (r: seq<Post>)
    ensures forall i :: 0 <= i < |r| ==> r[i].id == id
  {
    Filter(posts, (p: Post) => p.id == id)
  }

  predicate HasId(posts: seq<Post>, id: int) {
    exists i :: 0 <= i < |posts| && posts[i].id == id
  }

  /**
   * The save button of the add-post modal: an empty title is refused;
   * otherwise a post with the given id, title, detail and the modal's date
   * is appended after every existing post.
   */
  function SavePost(posts: seq<Post>, id: int, title: string, detail: string, date: string)
    : (r: Result<seq<Post>, SaveError>)
    ensures r.Failure? <==> title == ""
    ensures r.Success? ==> |r.value| == |posts| + 1
    ensures r.Success? ==> r.value[..|posts|] == posts
    ensures r.Success? ==> r.value[|posts|] == Post(id, title, detail, date)
  {
    if title == "" then Failure(EmptyTitle)
    else Success(posts + [Post(id, title, detail, date)])
  }

  /**
   * The delete button of the view modal: when the prompt is confirmed, every
   * post whose id is the selected one is dropped; otherwise nothing changes.
   */
  function DeletePost(posts: seq<Post>, selected: int, confirmed: bool): (r: seq<Post>)
    ensures !confirmed ==> r == posts
    ensures confirmed ==> forall i :: 0 <= i < |r| ==> r[i].id != selected && r[i] in posts
    ensures confirmed ==> forall i :: 0 <= i < |posts| && posts[i].id != selected ==> posts[i] in r
    ensures confirmed ==> |r| == |posts| - |WithId(posts, selected)|
  {
    if confirmed then
      var r := Filter(posts, (p: Post) => p.id != selected);
      FilterPartition(posts, (p: Post) => p.id == selected, (p: Post) => p.id != selected);
      r
    else posts
  }

  /** Deleting an id no post carries changes nothing. */
  lemma DeleteMissingId(posts: seq<Post>, selected: int, confirmed: bool)
    requires !HasId(posts, selected)
    ensures DeletePost(posts, selected, confirmed) == posts
  {
    if confirmed {
      FilterAllKept(posts, (p: Post) => p.id != selected);
    }
  }

  /** Deletion keeps the relative order: it acts on each part of a split collection separately. */
  lemma DeleteAppend(a: seq<Post>, b: seq<Post>, selected: int, confirmed: bool)
    ensures DeletePost(a + b, selected, confirmed)
         == DeletePost(a, selected, confirmed) + DeletePost(b, selected, confirmed)
  {
    if confirmed {
      FilterAppend(a, b, (p: Post) => p.id != selected);
    }
  }

  /** Confirming a second delete of the same id changes nothing more. */
  lemma DeleteIdempotent(posts: seq<Post>, selected: int, confirmed: bool)
    ensures DeletePost(DeletePost(posts, selected, confirmed), selected, confirmed)
         == DeletePost(posts, selected, confirmed)
  {
    if confirmed {
      FilterIdempotent(posts, (p: Post) => p.id != selected);
    }
  }

  /** A save followed by a confirmed delete of the new id restores the collection when the id was fresh. */
  lemma SaveThenDelete(posts: seq<Post>, id: int, title: string, detail: string, date: string)
    requires title != ""
    requires !HasId(posts, id)
    ensures DeletePost(SavePost(posts, id, title, detail, date).value, id, true) == posts
  {
    var p := Post(id, title, detail, date);
    DeleteAppend(posts, [p], id, true);
    DeleteMissingId(posts, id, true);
  }

  /** A saved post becomes the last chip of its own day and leaves every other day's chips alone. */
  lemma SaveAddsChip(posts: seq<Post>, id: int, title: string, detail: string, date: string, key: string)
    requires title != ""
    ensures ChipsFor(SavePost(posts, id, title, detail, date).value, key)
         == ChipsFor(posts, key) + (if key == date then [Post(id, title, detail, date)] else [])
  {
    FilterAppend(posts, [Post(id, title, detail, date)], (p: Post) => p.date == key);
  }

  /** Chips are selected from the collection in order: a split collection splits the chips. */
  lemma ChipsAppend(a: seq<Post>, b: seq<Post>, key: string)
    ensures ChipsFor(a + b, key) == ChipsFor(a, key) + ChipsFor(b, key)
  {
    FilterAppend(a, b, (p: Post) => p.date == key);
  }

  /** Deleting and then picking a day's chips is picking the chips and then deleting. */
  lemma {:induction false} DeleteCommutesWithChips(posts: seq<Post>, selected: int, key: string)
    ensures ChipsFor(DeletePost(posts, selected, true), key)
         == DeletePost(ChipsFor(posts, key), selected, true)
    decreases |posts|
  {
    if |posts| > 0 {
      var head, rest := [posts[0]], posts[1..];
      assert posts == head + rest;
      DeleteAppend(head, rest, selected, true);
      ChipsAppend(head, rest, key);
      ChipsAppend(DeletePost(head, selected, true), DeletePost(rest, selected, true), key);
      DeleteAppend(ChipsFor(head, key), ChipsFor(rest, key), selected, true);
      DeleteCommutesWithChips(rest, selected, key);
    }
  }
}
