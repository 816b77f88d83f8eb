/** Server-side semantics of the VPC API's cursor-paginated list calls, as
    the remote models of this project implement them. A collection is an
    ordered table of items with unique non-empty ids; a list call returns at
    most `limit` items starting at the cursor, and the cursor of the next page
    is the id of the first item the page left out ("" when none is left). The
    provider extracts that cursor from the `next` link (flex.GetNext). */
module Pagination {
  import opened Wrappers

  datatype Page<T> = Page(items: seq<T>, next: string)

  /** Errors of the listing itself (a start token naming no item). */
  datatype PageError = UnknownCursor

  /** Ids are non-empty (the empty cursor means "from the start") and distinct. */
  ghost predicate UniqueKeys<T>(items: seq<T>, key: T -> string)
  {
    && (forall i :: 0 <= i < |items| ==> key(items[i]) != "")
    && (forall i, j :: 0 <= i < j < |items| ==> key(items[i]) != key(items[j]))
  }

  /** Position of the first item whose id is `k`. */
  function IndexOfKey<T>(items: seq<T>, key: T -> string, k: string): (r: Option<nat>)
    ensures r.Some? ==> r.value < |items| && key(items[r.value]) == k
    ensures r.Some? ==> forall j :: 0 <= j < r.value ==> key(items[j]) != k
    ensures r.None? ==> forall j :: 0 <= j < |items| ==> key(items[j]) != k
  {
    if |items| == 0 then None
    else if key(items[0]) == k then Some(0)
    else match IndexOfKey(items[1..], key, k)
      case None => None
      case Some(i) => Some(i + 1)
  }

  /** With unique ids, the id of the item at `i` leads back to `i`. */
  lemma IndexOfUniqueKey<T>(items: seq<T>, key: T -> string, i: nat)
    requires UniqueKeys(items, key)
    requires i < |items|
    ensures IndexOfKey(items, key, key(items[i])) == Some(i)
  {
    assert IndexOfKey(items, key, key(items[i])).Some?;
  }

  /** The page that starts at offset `pos`. */
  function PageFrom<T>(items: seq<T>, key: T -> string, limit: nat, pos: nat): (p: Page<T>)
    requires limit > 0 && pos <= |items|
    ensures pos + |p.items| <= |items|
    ensures 0 < |p.items| <= limit || (pos == |items| && p.items == [])
    ensures p.items == items[pos..pos + |p.items|]
    ensures p.next == "" <==> pos + |p.items| == |items| || key(items[pos + |p.items|]) == ""
    ensures p.next != "" ==> p.next == key(items[pos + |p.items|])
  {
    if pos + limit < |items| then Page(items[pos..pos + limit], key(items[pos + limit]))
    else Page(items[pos..], "")
  }

  /** One list call: "" starts at the beginning, any other cursor at the item it names. */
  function ListPage<T>(items: seq<T>, key: T -> string, limit: nat, start: string): Result<Page<T>, PageError>
    requires limit > 0
  {
    if start == "" then Ok(PageFrom(items, key, limit, 0))
    else match IndexOfKey(items, key, start)
      case None => Err(UnknownCursor)
      case Some(i) => Ok(PageFrom(items, key, limit, i))
  }

  /** Following the cursor a page hands out resumes exactly where that page
      stopped, so the pages of one walk partition the table. */
  lemma CursorResumes<T>(items: seq<T>, key: T -> string, limit: nat, pos: nat)
    requires UniqueKeys(items, key) && limit > 0 && pos <= |items|
    ensures var p := PageFrom(items, key, limit, pos);
      p.next != "" ==>
        && pos + |p.items| < |items|
        && ListPage(items, key, limit, p.next) == Ok(PageFrom(items, key, limit, pos + |p.items|))
  {
    var p := PageFrom(items, key, limit, pos);
    if p.next != "" {
      IndexOfUniqueKey(items, key, pos + |p.items|);
    }
  }

  /** Number of list calls a complete walk makes from offset `pos`: one per
      page, and one (returning an empty page) for an empty table. */
  function PagesFrom(n: nat, limit: nat, pos: nat): (c: nat)
    requires limit > 0 && pos <= n
    ensures c >= 1
    decreases n - pos
  {
    if pos + limit < n then 1 + PagesFrom(n, limit, pos + limit) else 1
  }

  /** The page count is the ceiling of (n - pos) / limit: the last page
      holds between 1 and `limit` items. */
  lemma {:induction false} PagesFromCount(n: nat, limit: nat, pos: nat)
    requires limit > 0 && pos < n
    ensures (PagesFrom(n, limit, pos) - 1) * limit < n - pos <= PagesFrom(n, limit, pos) * limit
    decreases n - pos
  {
    if pos + limit < n {
      PagesFromCount(n, limit, pos + limit);
      var c := PagesFrom(n, limit, pos + limit);
      assert (c + 1) * limit == c * limit + limit;
      assert c * limit == (c - 1) * limit + limit;
    }
  }

  /** `start` is the cursor that lists the page at offset `pos`: "" for the
      first page, the id of the item at `pos` for any later one. */
  ghost predicate CursorAt<T>(items: seq<T>, key: T -> string, pos: nat, start: string)
  {
    if pos == 0 then start == "" else pos < |items| && start == key(items[pos])
  }

  /** A list call with the cursor of offset `pos` returns the page at `pos`. */
  lemma CursorLists<T>(items: seq<T>, key: T -> string, limit: nat, pos: nat, start: string)
    requires UniqueKeys(items, key) && limit > 0 && CursorAt(items, key, pos, start)
    ensures pos <= |items|
    ensures ListPage(items, key, limit, start) == Ok(PageFrom(items, key, limit, pos))
  {
    if pos > 0 {
      IndexOfUniqueKey(items, key, pos);
    }
  }

  /** One step of a complete walk that has made `made` of its `total` calls
      and stands at offset `pos`: the page either ends the walk (its cursor is
      empty, it reaches the end, and it was the last call) or is non-empty and
      hands out the cursor of the next offset. */
  lemma PageWalkStep<T>(items: seq<T>, key: T -> string, limit: nat, pos: nat, made: nat, total: nat)
    requires UniqueKeys(items, key) && limit > 0 && pos <= |items|
    requires made + PagesFrom(|items|, limit, pos) == total
    ensures var p := PageFrom(items, key, limit, pos);
      && items[..pos] + p.items == items[..pos + |p.items|]
      && (p.next == "" ==> pos + |p.items| == |items| && made + 1 == total)
      && (p.next != "" ==>
            && 0 < |p.items| && pos + |p.items| < |items|
            && made + 1 + PagesFrom(|items|, limit, pos + |p.items|) == total
            && CursorAt(items, key, pos + |p.items|, p.next))
  {
    var p := PageFrom(items, key, limit, pos);
    assert items[..pos] + items[pos..pos + |p.items|] == items[..pos + |p.items|];
  }
}
