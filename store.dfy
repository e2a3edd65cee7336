/** The store protocol: `Query`, a four-field filter with every field
    defaulting to `None`, and a store of entries whose `put`, `remove`,
    `query`, `select_all`, `get_count` and `get_count_of_key_id` are modelled
    over a sequence of entries with unique ids. */
module EntryStore {
  import opened Wrappers
  import opened Data

  /** `Query(entry_id=None, description=None, identity=None, meta=None)`; the
      datatype's fields are its read-only properties. */
  datatype Query = Query(
    entryId: Option<string> := None,
    description: Option<string> := None,
    identity: Option<string> := None,
    meta: Option<string> := None)

  /** The default query filters nothing. */
  lemma QueryDefaults()
    ensures var q := Query();
      q.entryId == None && q.description == None && q.identity == None && q.meta == None
  {
  }

  /** An entry satisfies every field of the query that is not `None`; so the
      default query matches every entry, and the query made of an entry's own
      fields matches that entry. */
  predicate Matches(q: Query, e: Entry): (r: bool)
    ensures q == Query() ==> r
    ensures q == Query(Some(e.entryId), Some(e.description), e.identity, e.meta) ==> r
  {
    && (q.entryId.Some? ==> e.entryId == q.entryId.value)
    && (q.description.Some? ==> e.description == q.description.value)
    && (q.identity.Some? ==> e.identity == q.identity)
    && (q.meta.Some? ==> e.meta == q.meta)
  }

  /** A query is the conjunction of its one-field filters: each field narrows
      the result independently of the others. */
  lemma MatchesEachField(q: Query, e: Entry)
    ensures Matches(q, e)
        <==> && Matches(Query(entryId := q.entryId), e)
             && Matches(Query(description := q.description), e)
             && Matches(Query(identity := q.identity), e)
             && Matches(Query(meta := q.meta), e)
  {
  }

  // ---------------------------------------------------------------------------
  // The entry collection as a value

  /** `EntryId` uniquely identifies an entry. */
  predicate UniqueIds(s: seq<Entry>) {
    forall i, j :: 0 <= i < j < |s| ==> s[i].entryId != s[j].entryId
  }

  predicate HasId(s: seq<Entry>, id: string) {
    exists i :: 0 <= i < |s| && s[i].entryId == id
  }

  /** The position of the entry with id `id`, or `|s|` when there is none. */
  function IndexOfId(s: seq<Entry>, id: string): (i: nat)
    ensures i <= |s|
    ensures i < |s| ==> s[i].entryId == id
    ensures forall j :: 0 <= j < i ==> s[j].entryId != id
  {
    if s == [] then 0
    else if s[0].entryId == id then 0
    else 1 + IndexOfId(s[1..], id)
  }

  /** `put`: the entry takes the place of the one with its id, or is added at the end. */
  function PutInto(s: seq<Entry>, e: Entry): seq<Entry> {
    var i := IndexOfId(s, e.entryId);
    if i < |s| then s[i := e] else s + [e]
  }

  /** `remove`: the entries with the removed entry's id are dropped. */
  function RemoveFrom(s: seq<Entry>, e: Entry): seq<Entry>
    decreases |s|
  {
    if s == [] then []
    else RemoveFrom(s[..|s| - 1], e) + (if s[|s| - 1].entryId == e.entryId then [] else [s[|s| - 1]])
  }

  /** `query`: the entries satisfying the query, in store order. */
  function Select(s: seq<Entry>, q: Query): seq<Entry>
    decreases |s|
  {
    if s == [] then []
    else Select(s[..|s| - 1], q) + (if Matches(q, s[|s| - 1]) then [s[|s| - 1]] else [])
  }

  /** The number of entries encrypted under `keyId`. */
  function CountKey(s: seq<Entry>, keyId: string): nat
    decreases |s|
  {
    if s == [] then 0
    else CountKey(s[..|s| - 1], keyId) + (if s[|s| - 1].keyId == keyId then 1 else 0)
  }

  // ---------------------------------------------------------------------------
  // What put and remove promise

  /** After `put(e)`, `e` is among the entries, the ids stay unique, every
      entry with another id is kept and nothing else is added. */
  lemma PutSpec(s: seq<Entry>, e: Entry)
    requires UniqueIds(s)
    ensures e in PutInto(s, e)
    ensures UniqueIds(PutInto(s, e))
    ensures forall x :: x in PutInto(s, e) <==> x == e || (x in s && x.entryId != e.entryId)
    ensures |PutInto(s, e)| == if HasId(s, e.entryId) then |s| else |s| + 1
  {
    var i := IndexOfId(s, e.entryId);
    var r := PutInto(s, e);
    if i < |s| {
      assert r[i] == e;
      forall x | x in s && x.entryId != e.entryId ensures x in r {
        var j :| 0 <= j < |s| && s[j] == x;
        assert r[j] == x;
      }
      forall x | x in r && x != e ensures x in s && x.entryId != e.entryId {
        var j :| 0 <= j < |r| && r[j] == x;
        assert j != i && s[j] == x;
      }
    } else {
      assert r[|s|] == e;
      forall x | x in r && x != e ensures x in s && x.entryId != e.entryId {
        var j :| 0 <= j < |r| && r[j] == x;
        assert j < |s| && s[j] == x;
      }
    }
  }

  /** Putting the same entry twice is putting it once. */
  lemma PutIdempotent(s: seq<Entry>, e: Entry)
    ensures PutInto(PutInto(s, e), e) == PutInto(s, e)
  {
    var i := IndexOfId(s, e.entryId);
    var r := PutInto(s, e);
    if i < |s| {
      assert forall j :: 0 <= j < i ==> r[j].entryId != e.entryId;
      assert IndexOfIdAt(r, e.entryId, i);
    } else {
      assert forall j :: 0 <= j < |s| ==> r[j].entryId != e.entryId;
      assert IndexOfIdAt(r, e.entryId, |s|);
    }
  }

  /** The first entry with id `id` sits at `i`. */
  predicate IndexOfIdAt(s: seq<Entry>, id: string, i: nat) {
    i < |s| && s[i].entryId == id && (forall j :: 0 <= j < i ==> s[j].entryId != id) && IndexOfId(s, id) == i
  }

  /** After `remove(e)`, no entry with `e`'s id is left, and every other entry
      is kept; with unique ids the count drops by one exactly when `e`'s id
      was stored. */
  lemma {:induction false} RemoveSpec(s: seq<Entry>, e: Entry)
    ensures forall x :: x in RemoveFrom(s, e) <==> x in s && x.entryId != e.entryId
    ensures e !in RemoveFrom(s, e)
    ensures |RemoveFrom(s, e)| <= |s|
    ensures UniqueIds(s) ==> |RemoveFrom(s, e)| == if HasId(s, e.entryId) then |s| - 1 else |s|
    decreases |s|
  {
    if s != [] {
      var front := s[..|s| - 1];
      RemoveSpec(front, e);
      assert s == front + [s[|s| - 1]];
    }
    if UniqueIds(s) {
      RemoveCount(s, e);
    }
  }

  lemma {:induction false} RemoveCount(s: seq<Entry>, e: Entry)
    requires UniqueIds(s)
    ensures |RemoveFrom(s, e)| == if HasId(s, e.entryId) then |s| - 1 else |s|
    decreases |s|
  {
    if s != [] {
      var front := s[..|s| - 1];
      assert UniqueIds(front);
      RemoveCount(front, e);
      HasIdLast(s, e.entryId);
    }
  }

  /** With unique ids, `id` is stored iff it is in the front or is the last
      entry's, and not both. */
  lemma HasIdLast(s: seq<Entry>, id: string)
    requires s != [] && UniqueIds(s)
    ensures HasId(s, id) <==> HasId(s[..|s| - 1], id) || s[|s| - 1].entryId == id
    ensures s[|s| - 1].entryId == id ==> !HasId(s[..|s| - 1], id)
  {
    var front := s[..|s| - 1];
    if HasId(s, id) && s[|s| - 1].entryId != id {
      var i :| 0 <= i < |s| && s[i].entryId == id;
      assert front[i] == s[i];
    }
    if HasId(front, id) {
      var i :| 0 <= i < |front| && front[i].entryId == id;
      assert s[i] == front[i];
    }
  }

  /** Removing keeps the ids unique. */
  lemma {:induction false} RemoveUnique(s: seq<Entry>, e: Entry)
    requires UniqueIds(s)
    ensures UniqueIds(RemoveFrom(s, e))
    decreases |s|
  {
    if s != [] {
      var front := s[..|s| - 1];
      var last := s[|s| - 1];
      assert UniqueIds(front);
      RemoveUnique(front, e);
      RemoveSpec(front, e);
      forall x | x in RemoveFrom(front, e) ensures x.entryId != last.entryId {
        var j :| 0 <= j < |front| && front[j] == x;
        assert s[j] == x;
      }
    }
  }

  /** Removing an entry right after putting it leaves what removing it alone leaves. */
  lemma {:induction false} RemoveAfterPut(s: seq<Entry>, e: Entry)
    ensures RemoveFrom(PutInto(s, e), e) == RemoveFrom(s, e)
  {
    var i := IndexOfId(s, e.entryId);
    if i < |s| {
      RemoveReplaced(s, e, i);
    } else {
      assert (s + [e])[..|s|] == s;
    }
  }

  lemma {:induction false} RemoveReplaced(s: seq<Entry>, e: Entry, i: nat)
    requires i < |s| && s[i].entryId == e.entryId
    ensures RemoveFrom(s[i := e], e) == RemoveFrom(s, e)
    decreases |s|
  {
    var t := s[i := e];
    if i < |s| - 1 {
      assert t[..|t| - 1] == s[..|s| - 1][i := e];
      RemoveReplaced(s[..|s| - 1], e, i);
    } else {
      assert t[..|t| - 1] == s[..|s| - 1];
    }
  }

  // ---------------------------------------------------------------------------
  // What query and the counts promise

  /** `query(q)` returns exactly the stored entries that satisfy every
      non-`None` field of `q`. */
  lemma {:induction false} SelectSpec(s: seq<Entry>, q: Query)
    ensures forall x :: x in Select(s, q) <==> x in s && Matches(q, x)
    ensures |Select(s, q)| <= |s|
    decreases |s|
  {
    if s != [] {
      SelectSpec(s[..|s| - 1], q);
      assert s == s[..|s| - 1] + [s[|s| - 1]];
    }
  }

  /** The default query selects every entry, in order. */
  lemma {:induction false} SelectAllByDefault(s: seq<Entry>)
    ensures Select(s, Query()) == s
    decreases |s|
  {
    if s != [] {
      SelectAllByDefault(s[..|s| - 1]);
      assert s == s[..|s| - 1] + [s[|s| - 1]];
    }
  }

  lemma SelectThree(a: Entry, b: Entry, c: Entry, q: Query)
    ensures Select([a, b, c], q)
         == (if Matches(q, a) then [a] else []) + (if Matches(q, b) then [b] else []) + (if Matches(q, c) then [c] else [])
  {
    var s := [a, b, c];
    var xa, xb, xc := (if Matches(q, a) then [a] else []), (if Matches(q, b) then [b] else []), (if Matches(q, c) then [c] else []);
    assert s[..2] == [a, b] && [a, b][..1] == [a] && [a][..0] == [];
    assert Select([a], q) == xa;
    assert Select([a, b], q) == xa + xb;
    assert Select(s, q) == xa + xb + xc;
  }

  /** Filtering by description, then by description and identity, then by
      nothing and by a description no entry has. */
  lemma QueryExample(a: Entry, b: Entry, c: Entry)
    requires a.description == "github.com" && a.identity == Some("alice")
    requires b.description == "github.com" && b.identity == Some("bob")
    requires c.description == "gitlab.com"
    ensures Select([a, b, c], Query(description := Some("github.com"))) == [a, b]
    ensures Select([a, b, c], Query(description := Some("github.com"), identity := Some("bob"))) == [b]
    ensures Select([a, b, c], Query()) == [a, b, c]
    ensures Select([a, b, c], Query(description := Some("nope"))) == []
  {
    assert "gitlab.com"[4] != "github.com"[4];
    assert "alice"[0] != "bob"[0];
    assert "nope"[0] != "github.com"[0] && "nope"[0] != "gitlab.com"[0];
    var q1, q2, q4 := Query(description := Some("github.com")), Query(description := Some("github.com"), identity := Some("bob")),
                      Query(description := Some("nope"));
    SelectThree(a, b, c, q1);
    assert Matches(q1, a) && Matches(q1, b) && !Matches(q1, c);
    SelectThree(a, b, c, q2);
    assert !Matches(q2, a) && Matches(q2, b) && !Matches(q2, c);
    SelectThree(a, b, c, q4);
    assert !Matches(q4, a) && !Matches(q4, b) && !Matches(q4, c);
    SelectAllByDefault([a, b, c]);
  }

  /** The count for a key id is the number of entries under that key, so
      never more than the whole count, and all of them when every entry
      shares the key. */
  lemma {:induction false} CountKeySpec(s: seq<Entry>, keyId: string)
    ensures CountKey(s, keyId) <= |s|
    ensures CountKey(s, keyId) == |s| <==> forall x :: x in s ==> x.keyId == keyId
    ensures CountKey(s, keyId) == 0 <==> forall x :: x in s ==> x.keyId != keyId
    decreases |s|
  {
    if s != [] {
      var front := s[..|s| - 1];
      CountKeySpec(front, keyId);
      assert s == front + [s[|s| - 1]];
    }
  }

  // ---------------------------------------------------------------------------
  // The store

  class Store {
    var entries: seq<Entry>

    ghost predicate Valid()
      reads this
    {
      UniqueIds(entries)
    }

    constructor ()
      ensures Valid() && entries == []
    {
      entries := [];
    }

    /** `put`: looks for the entry's id, then replaces or appends. */
    method Put(e: Entry)
      requires Valid()
      modifies this
      ensures Valid()
      ensures entries == PutInto(old(entries), e)
      ensures e in entries
      ensures |entries| == if HasId(old(entries), e.entryId) then |old(entries)| else |old(entries)| + 1
    {
      var i := 0;
      while i < |entries| && entries[i].entryId != e.entryId
        invariant i <= |entries|
        invariant forall j :: 0 <= j < i ==> entries[j].entryId != e.entryId
      {
        i := i + 1;
      }
      assert i == IndexOfId(entries, e.entryId) by {
        if i < |entries| { assert IndexOfIdAt(entries, e.entryId, i); }
        else { IndexOfIdNone(entries, e.entryId); }
      }
      PutSpec(entries, e);
      if i < |entries| {
        entries := entries[i := e];
      } else {
        entries := entries + [e];
      }
    }

    /** `remove`: keeps every entry with another id. */
    method Remove(e: Entry)
      requires Valid()
      modifies this
      ensures Valid()
      ensures entries == RemoveFrom(old(entries), e)
      ensures e !in entries
      ensures |entries| == if HasId(old(entries), e.entryId) then |old(entries)| - 1 else |old(entries)|
    {
      var kept := [];
      var i := 0;
      while i < |entries|
        invariant i <= |entries|
        invariant kept == RemoveFrom(entries[..i], e)
      {
        assert entries[..i + 1][..i] == entries[..i];
        if entries[i].entryId != e.entryId {
          kept := kept + [entries[i]];
        }
        i := i + 1;
      }
      assert entries[..i] == entries;
      RemoveSpec(entries, e);
      RemoveUnique(entries, e);
      entries := kept;
    }

    /** `query`: the matching entries, in store order. */
    method QueryEntries(q: Query) returns (r: seq<Entry>)
      ensures r == Select(entries, q)
    {
      r := [];
      var i := 0;
      while i < |entries|
        invariant i <= |entries|
        invariant r == Select(entries[..i], q)
      {
        assert entries[..i + 1][..i] == entries[..i];
        if Matches(q, entries[i]) {
          r := r + [entries[i]];
        }
        i := i + 1;
      }
      assert entries[..i] == entries;
    }

    /** `select_all`. */
    method SelectAll() returns (r: seq<Entry>)
      ensures r == entries
    {
      r := entries;
    }

    /** `get_count`: the length of `select_all()`. */
    method GetCount() returns (n: nat)
      ensures n == |entries|
    {
      n := |entries|;
    }

    /** `get_count_of_key_id`. */
    method GetCountOfKeyId(keyId: string) returns (n: nat)
      ensures n == CountKey(entries, keyId)
      ensures n <= |entries|
    {
      n := 0;
      var i := 0;
      while i < |entries|
        invariant i <= |entries|
        invariant n == CountKey(entries[..i], keyId)
      {
        assert entries[..i + 1][..i] == entries[..i];
        if entries[i].keyId == keyId {
          n := n + 1;
        }
        i := i + 1;
      }
      assert entries[..i] == entries;
      CountKeySpec(entries, keyId);
    }
  }

  lemma {:induction false} IndexOfIdNone(s: seq<Entry>, id: string)
    requires forall j :: 0 <= j < |s| ==> s[j].entryId != id
    ensures IndexOfId(s, id) == |s|
    decreases |s|
  {
    if s != [] {
      IndexOfIdNone(s[1..], id);
    }
  }
}
