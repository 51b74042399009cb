/**
  The in-memory item store of the API server: a table of items held in one
  module-level array, read by the list and lookup routes and appended to by
  the create route.
 */
module ItemStore {
  import opened Wrappers
  import opened JsBuiltins

  /** One row of the table; `createdAt` is an ISO timestamp taken from the clock, kept opaque. */
  datatype Item = Item(id: int, name: string, createdAt: string)

  /**
    A reply with its HTTP status: the JSON bodies `{ok: true, data}` and
    `{ok: false, error, message?}`, or `Thrown` when the handler throws and
    Express's default error handler answers with that status.
   */
  datatype Reply<T> =
    | Ok(status: nat, data: T)
    | Fail(status: nat, error: string, message: Option<string>)
    | Thrown(status: nat)

  /** The body of the list route's reply, `{count, data}`. */
  datatype Listing = Listing(count: nat, data: seq<Item>)

  const NameRequired: string := "Name is required"
  const NotFound: string := "NOT_FOUND"
  const ItemNotFound: string := "Item not found"

  // ---------------------------------------------------------------- ids

  /** Ids strictly increase in table order. */
  ghost predicate IdsIncreasing(s: seq<Item>) {
    forall i, j :: 0 <= i < j < |s| ==> s[i].id < s[j].id
  }

  /** No two rows share an id. */
  ghost predicate IdsUnique(s: seq<Item>) {
    forall i, j :: 0 <= i < |s| && 0 <= j < |s| && i != j ==> s[i].id != s[j].id
  }

  lemma IncreasingIdsAreUnique(s: seq<Item>)
    requires IdsIncreasing(s)
    ensures IdsUnique(s)
  {
  }

  /** The three rows the table starts with, stamped with the given creation times. */
  function Seed(t1: string, t2: string, t3: string): (s: seq<Item>)
    ensures |s| == 3 && IdsIncreasing(s)
    ensures forall k :: 0 <= k < |s| ==> s[k].id >= 1 && s[k].name != []
  {
    [Item(1, "Alpha", t1), Item(2, "Beta", t2), Item(3, "Gamma", t3)]
  }

  /**
    The id the create route gives a new row: one more than the id of the last
    row, or 1 for an empty table. When ids increase along the table it is
    larger than every id already there.
   */
  function NextId(s: seq<Item>): (id: int)
    ensures s == [] ==> id == 1
    ensures IdsIncreasing(s) ==> forall k :: 0 <= k < |s| ==> s[k].id < id
  {
    if |s| > 0 then s[|s| - 1].id + 1 else 1
  }

  /** Appending a row with the next id keeps ids increasing, hence unique. */
  lemma AppendKeepsIdsIncreasing(s: seq<Item>, x: Item)
    requires IdsIncreasing(s)
    requires x.id == NextId(s)
    ensures IdsIncreasing(s + [x]) && IdsUnique(s + [x])
  {
  }

  // ---------------------------------------------------------------- create

  /**
    The validation gate of the create route: the `name` field is accepted
    only when it is truthy and of type "string", that is, exactly when it is
    a non-empty string.
   */
  function AcceptedName(v: JsValue): (r: Option<string>)
    ensures r.Some? <==> v.Str? && v.s != []
    ensures r.Some? ==> v == Str(r.value)
  {
    if !Truthy(v) || TypeOf(v) != "string" then None else Some(v.s)
  }

  // ---------------------------------------------------------------- list

  /**
    The search key of the list route: the query text, lower-cased, then
    trimmed. It holds no upper-case ASCII letter and neither starts nor ends
    with white space.
   */
  function QueryKey(t: string): (key: string)
    ensures forall k :: 0 <= k < |key| ==> !IsAsciiUpper(key[k])
    ensures key == [] || (!IsWhitespace(key[0]) && !IsWhitespace(key[|key| - 1]))
  {
    TrimmedLowerHasNoUpper(t);
    Trim(ToLower(t))
  }

  /**
    The filter's test: an item matches a key when its lower-cased name
    includes the key somewhere; the empty key matches every item.
   */
  predicate NameMatches(x: Item, key: string): (b: bool)
    ensures b <==> Occurs(ToLower(x.name), key)
    ensures key == [] ==> b
  {
    IncludesEmpty(ToLower(x.name));
    Includes(ToLower(x.name), key)
  }

  /** The rows whose name matches `key`, in table order; every row kept matches. */
  function FilterByName(s: seq<Item>, key: string): (r: seq<Item>)
    ensures |r| <= |s|
    ensures forall k :: 0 <= k < |r| ==> NameMatches(r[k], key)
  {
    if s == [] then []
    else if NameMatches(s[0], key) then [s[0]] + FilterByName(s[1..], key)
    else FilterByName(s[1..], key)
  }

  /**
    The filter loses no matching row: each row value occurs in the result as
    often as in the table when it matches, and not at all otherwise.
   */
  lemma {:induction false} FilterCounts(s: seq<Item>, key: string)
    ensures forall x :: multiset(FilterByName(s, key))[x] == if NameMatches(x, key) then multiset(s)[x] else 0
    decreases |s|
  {
    if s != [] {
      assert s == [s[0]] + s[1..];
      FilterCounts(s[1..], key);
    }
  }

  /** `r` is `s` with some elements left out and the rest in their original order. */
  ghost predicate IsSubsequence(r: seq<Item>, s: seq<Item>)
    decreases |s|
  {
    if r == [] then true
    else if s == [] then false
    else if r[0] == s[0] then IsSubsequence(r[1..], s[1..])
    else IsSubsequence(r, s[1..])
  }

  lemma {:induction false} SubsequenceMultiset(r: seq<Item>, s: seq<Item>)
    requires IsSubsequence(r, s)
    ensures multiset(r) <= multiset(s)
    decreases |s|
  {
    if r != [] {
      assert s == [s[0]] + s[1..];
      if r[0] == s[0] {
        assert r == [r[0]] + r[1..];
        SubsequenceMultiset(r[1..], s[1..]);
      } else {
        SubsequenceMultiset(r, s[1..]);
      }
    }
  }

  /** The filter keeps the table's order. */
  lemma {:induction false} FilterIsSubsequence(s: seq<Item>, key: string)
    ensures IsSubsequence(FilterByName(s, key), s)
    decreases |s|
  {
    if s != [] {
      FilterIsSubsequence(s[1..], key);
      var r := FilterByName(s, key);
      if !NameMatches(s[0], key) && r != [] {
        // r[0] matches, so it is not s[0] and the subsequence skips s[0]
        assert NameMatches(r[0], key);
      }
    }
  }

  /**
    The filter is the only order-preserving selection of the rows that keeps
    every matching row and nothing else: any such `r` equals it.
   */
  lemma {:induction false} FilterUnique(s: seq<Item>, key: string, r: seq<Item>)
    requires IsSubsequence(r, s)
    requires forall k :: 0 <= k < |r| ==> NameMatches(r[k], key)
    requires forall x :: multiset(r)[x] == if NameMatches(x, key) then multiset(s)[x] else 0
    ensures r == FilterByName(s, key)
    decreases |s|
  {
    if s == [] {
      assert r == [];
    } else {
      assert s == [s[0]] + s[1..];
      if r != [] && r[0] == s[0] {
        assert r == [r[0]] + r[1..];
        FilterUnique(s[1..], key, r[1..]);
      } else if NameMatches(s[0], key) {
        // s[0] must be kept, yet r skips it: r would miss one copy of s[0]
        assert r != [] ==> IsSubsequence(r, s[1..]);
        SubsequenceMultiset(r, s[1..]);
        assert false;
      } else {
        assert r != [] ==> IsSubsequence(r, s[1..]);
        FilterUnique(s[1..], key, r);
      }
    }
  }

  /** With an empty key every row matches, so the filter returns the table unchanged. */
  lemma {:induction false} FilterEmptyKeyKeepsAll(s: seq<Item>)
    ensures FilterByName(s, []) == s
    decreases |s|
  {
    if s != [] {
      IncludesEmpty(ToLower(s[0].name));
      FilterEmptyKeyKeepsAll(s[1..]);
    }
  }

  /** Filtering a table with one more row appended: that row comes last in the result, when it matches. */
  lemma {:induction false} FilterAppend(s: seq<Item>, x: Item, key: string)
    ensures FilterByName(s + [x], key) == FilterByName(s, key) + (if NameMatches(x, key) then [x] else [])
    decreases |s|
  {
    var tail := if NameMatches(x, key) then [x] else [];
    if s == [] {
      assert s + [x] == [x];
      assert [x][1..] == [];
    } else {
      var t := s + [x];
      assert t[0] == s[0] && t[1..] == s[1..] + [x];
      FilterAppend(s[1..], x, key);
      if NameMatches(s[0], key) {
        calc {
          FilterByName(t, key);
          [s[0]] + FilterByName(s[1..] + [x], key);
          [s[0]] + (FilterByName(s[1..], key) + tail);
          ([s[0]] + FilterByName(s[1..], key)) + tail;
        }
      }
    }
  }

  /** A query text and its lower-cased form give the same key. */
  lemma QueryKeyCaseInsensitive(t: string)
    ensures QueryKey(ToLower(t)) == QueryKey(t)
  {
    ToLowerIdempotent(t);
  }

  /** Two query texts that differ only in the case of ASCII letters give the same key. */
  lemma QueryKeyIgnoresCase(t1: string, t2: string)
    requires |t1| == |t2|
    requires forall i :: 0 <= i < |t1| ==> LowerChar(t1[i]) == LowerChar(t2[i])
    ensures QueryKey(t1) == QueryKey(t2)
  {
    assert ToLower(t1) == ToLower(t2);
  }

  /** A query text made only of white space, such as the empty text of a missing query, gives the empty key. */
  lemma BlankQueryGivesEmptyKey(t: string)
    requires AllWhitespace(t)
    ensures QueryKey(t) == []
  {
    forall i | 0 <= i < |t|
      ensures IsWhitespace(ToLower(t)[i])
    {
      LowerCharKeepsWhitespace(t[i]);
    }
    TrimBlank(ToLower(t));
  }

  // ---------------------------------------------------------------- lookup

  /** The index of the first row whose id equals `id`; a non-numeric id (`None`) matches nothing. */
  function FirstIndex(s: seq<Item>, id: Option<int>): (r: Option<nat>)
    ensures r.None? <==> forall k :: 0 <= k < |s| ==> Some(s[k].id) != id
    ensures r.Some? ==> r.value < |s| && Some(s[r.value].id) == id
    ensures r.Some? ==> forall k :: 0 <= k < r.value ==> Some(s[k].id) != id
  {
    if s == [] then None
    else if Some(s[0].id) == id then Some(0)
    else
      match FirstIndex(s[1..], id)
      case None => None
      case Some(i) => Some(i + 1)
  }

  /** After a row with the next id is appended, looking up that id finds it at the end of the table. */
  lemma LookupNewRow(s: seq<Item>, x: Item)
    requires IdsIncreasing(s)
    requires x.id == NextId(s)
    ensures FirstIndex(s + [x], Some(x.id)) == Some(|s|)
  {
    var t := s + [x];
    assert t[|s|] == x;
  }

  /** Appending a row never moves an id that was already found. */
  lemma {:induction false} LookupOldRow(s: seq<Item>, x: Item, id: Option<int>)
    requires FirstIndex(s, id).Some?
    ensures FirstIndex(s + [x], id) == FirstIndex(s, id)
    decreases |s|
  {
    var t := s + [x];
    assert t[0] == s[0];
    if Some(s[0].id) != id {
      assert t[1..] == s[1..] + [x];
      LookupOldRow(s[1..], x, id);
    }
  }

  // ---------------------------------------------------------------- the table

  /** The module-level table of items and the three routes that use it. */
  class Store {
    var items: seq<Item>

    /** The table invariant: ids strictly increase in table order. */
    ghost predicate Valid()
      reads this
    {
      IdsIncreasing(items)
    }

    /** The table as the server starts: Alpha, Beta and Gamma with ids 1, 2, 3. */
    constructor (t1: string, t2: string, t3: string)
      ensures items == Seed(t1, t2, t3)
      ensures Valid()
    {
      items := Seed(t1, t2, t3);
    }

    /**
      The list route. When `String(...)` of the query throws, the route
      answers 500. Otherwise, with an empty key (after lower-casing and
      trimming) every row is returned, else exactly the rows whose
      lower-cased name includes the key, in table order; `count` is the
      number of rows returned.
     */
    function List(q: QueryValue): (r: Reply<Listing>)
      reads this
      ensures r.Thrown? <==> QueryText(q).None?
      ensures r.Thrown? ==> r.status == 500
      ensures !r.Fail?
      ensures r.Ok? ==>
                && r.status == 200
                && r.data.count == |r.data.data|
                && (QueryKey(QueryText(q).value) == [] ==> r.data.data == items)
                && r.data.data == FilterByName(items, QueryKey(QueryText(q).value))
                && IsSubsequence(r.data.data, items)
    {
      match QueryText(q)
      case None => Thrown(500)
      case Some(text) =>
        var key := QueryKey(text);
        FilterEmptyKeyKeepsAll(items);
        FilterIsSubsequence(items, key);
        var data := if key != [] then FilterByName(items, key) else items;
        Ok(200, Listing(|data|, data))
    }

    /**
      The lookup route: the first row with the given id, or a 404 NOT_FOUND
      reply when no row has it.
     */
    function Get(id: Option<int>): (r: Reply<Item>)
      reads this
      ensures r.Ok? <==> exists k :: 0 <= k < |items| && Some(items[k].id) == id
      ensures r.Ok? ==> r.status == 200 && exists k :: FirstWithId(items, id, k) && r.data == items[k]
      ensures !r.Ok? ==> r == Fail(404, NotFound, Some(ItemNotFound))
    {
      match FirstIndex(items, id)
      case Some(k) => assert FirstWithId(items, id, k); Ok(200, items[k])
      case None => Fail(404, NotFound, Some(ItemNotFound))
    }

    /**
      The create route. A name that is not a non-empty string is refused with
      a 400 reply and the table is left as it was; otherwise one row, with the
      next id, the given name and the clock reading `now`, is appended and
      returned with status 201.
     */
    method Create(name: JsValue, now: string) returns (r: Reply<Item>)
      modifies this
      ensures AcceptedName(name).None? ==> r == Fail(400, NameRequired, None) && items == old(items)
      ensures AcceptedName(name).Some? ==>
                && r == Ok(201, Item(NextId(old(items)), AcceptedName(name).value, now))
                && items == old(items) + [r.data]
      ensures old(Valid()) ==> Valid() && IdsUnique(items)
    {
      var accepted := AcceptedName(name);
      if accepted.None? {
        return Fail(400, NameRequired, None);
      }
      var newItem := Item(if |items| > 0 then items[|items| - 1].id + 1 else 1, accepted.value, now);
      if IdsIncreasing(items) {
        AppendKeepsIdsIncreasing(items, newItem);
      }
      items := items + [newItem];
      r := Ok(201, newItem);
    }
  }

  /** `k` is the position of the first row whose id equals `id`. */
  ghost predicate FirstWithId(s: seq<Item>, id: Option<int>, k: int) {
    0 <= k < |s| && Some(s[k].id) == id && forall j :: 0 <= j < k ==> Some(s[j].id) != id
  }

  /** A client of the routes: what the contracts above let a caller conclude about one session. */
  method CreateThenRead(t1: string, t2: string, t3: string, now: string)
  {
    var store := new Store(t1, t2, t3);
    var r := store.Create(Str("Delta"), now);
    assert r == Ok(201, Item(4, "Delta", now));
    assert store.items[3] == r.data;
    LookupNewRow(Seed(t1, t2, t3), r.data);
    assert store.Get(Some(4)) == Ok(200, r.data);
    assert store.Get(None).Fail?;
    var refused := store.Create(Str(""), now);
    assert refused == Fail(400, NameRequired, None);
    assert store.List(Missing) == Ok(200, Listing(4, store.items));
    assert store.List(Nested(true)) == Thrown(500);
  }
}
