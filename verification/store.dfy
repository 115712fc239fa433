/** The generic in-memory entity store: an ordered sequence of records of one
    kind, each carrying an id that `key` extracts. The page keeps three such
    sequences (books, authors, categories) and changes each of them only by
    replacing it with one of the whole-sequence transformations below:
    append (`[...s, r]`), `Delete` (`s.filter(x => x.id !== id)`) and
    `Update` (`s.map(x => x.id === r.id ? r : x)`). */
module Store {
  import opened Records

  // ---------------------------------------------------------------------
  // Ordered subsequences and filtering
  // ---------------------------------------------------------------------

  /** `a` can be obtained from `b` by dropping elements, without reordering. */
  ghost predicate IsSubsequence<T(!new)>(a: seq<T>, b: seq<T>) {
    if a == [] then true
    else if b == [] then false
    else (a[0] == b[0] && IsSubsequence(a[1..], b[1..])) || IsSubsequence(a, b[1..])
  }

  /** `Array.prototype.filter`: the elements `keep` accepts, in their original order. */
  function Filter<T(==,!new)>(s: seq<T>, keep: T -> bool): (r: seq<T>)
    ensures |r| <= |s|
    ensures forall x :: x in r <==> x in s && keep(x)
  {
    if s == [] then []
    else
      assert forall x :: x in s <==> x == s[0] || x in s[1..];
      if keep(s[0]) then [s[0]] + Filter(s[1..], keep) else Filter(s[1..], keep)
  }

  lemma {:induction false} SubsequenceOfTail<T(!new)>(a: seq<T>, b: seq<T>)
    requires b != [] && IsSubsequence(a, b[1..])
    ensures IsSubsequence(a, b)
  {
  }

  /** A filter result keeps the survivors in their original relative order. */
  lemma {:induction false} FilterIsSubsequence<T(!new)>(s: seq<T>, keep: T -> bool)
    ensures IsSubsequence(Filter(s, keep), s)
  {
    if s != [] {
      FilterIsSubsequence(s[1..], keep);
      if keep(s[0]) {
        var r := Filter(s, keep);
        assert r[0] == s[0] && r[1..] == Filter(s[1..], keep);
      } else {
        SubsequenceOfTail(Filter(s, keep), s);
      }
    }
  }

  /** A filter that accepts every element is the identity. */
  lemma {:induction false} FilterKeepsAll<T(!new)>(s: seq<T>, keep: T -> bool)
    requires forall x :: x in s ==> keep(x)
    ensures Filter(s, keep) == s
  {
    if s != [] {
      assert forall x :: x in s[1..] ==> x in s;
      FilterKeepsAll(s[1..], keep);
      assert s == [s[0]] + s[1..];
    }
  }

  /** Filtering twice with the same predicate is filtering once. */
  lemma {:induction false} FilterIdempotent<T(!new)>(s: seq<T>, keep: T -> bool)
    ensures Filter(Filter(s, keep), keep) == Filter(s, keep)
  {
    FilterKeepsAll(Filter(s, keep), keep);
  }

  /** Two predicates that agree on every element select the same records. */
  lemma {:induction false} FilterAgreeing<T(!new)>(s: seq<T>, k1: T -> bool, k2: T -> bool)
    requires forall x :: x in s ==> k1(x) == k2(x)
    ensures Filter(s, k1) == Filter(s, k2)
  {
    if s != [] {
      assert forall x :: x in s[1..] ==> x in s;
      FilterAgreeing(s[1..], k1, k2);
    }
  }

  /** A filter keeps every occurrence of an accepted element and none of a
      rejected one: it never merges or drops duplicates. */
  lemma {:induction false} FilterMultiset<T(!new)>(s: seq<T>, keep: T -> bool)
    ensures forall x :: multiset(Filter(s, keep))[x] == if keep(x) then multiset(s)[x] else 0
  {
    if s != [] {
      FilterMultiset(s[1..], keep);
      assert s == [s[0]] + s[1..];
    }
  }

  // ---------------------------------------------------------------------
  // Ids
  // ---------------------------------------------------------------------

  /** Some record in `s` carries `id`. */
  predicate HasId<T(==,!new)>(s: seq<T>, key: T -> Id, id: Id) {
    exists x :: x in s && key(x) == id
  }

  /** No two positions of `s` carry the same id. */
  ghost predicate IdsUnique<T(!new)>(s: seq<T>, key: T -> Id) {
    forall i, j :: 0 <= i < j < |s| ==> key(s[i]) != key(s[j])
  }

  /** The number of records in `s` that carry `id`. */
  function CountId<T(==,!new)>(s: seq<T>, key: T -> Id, id: Id): (n: nat)
    ensures n <= |s|
    ensures n == 0 <==> !HasId(s, key, id)
  {
    if s == [] then 0
    else
      assert forall x :: x in s <==> x == s[0] || x in s[1..];
      (if key(s[0]) == id then 1 else 0) + CountId(s[1..], key, id)
  }

  /** In a sequence with unique ids an id occurs at most once. */
  lemma {:induction false} UniqueCountAtMostOne<T(!new)>(s: seq<T>, key: T -> Id, id: Id)
    requires IdsUnique(s, key)
    ensures CountId(s, key, id) <= 1
  {
    if s != [] {
      assert IdsUnique(s[1..], key);
      UniqueCountAtMostOne(s[1..], key, id);
      if key(s[0]) == id {
        assert !HasId(s[1..], key, id) by {
          forall x | x in s[1..] ensures key(x) != id {
            var j :| 0 <= j < |s[1..]| && s[1..][j] == x;
            assert s[j + 1] == x;
          }
        }
      }
    }
  }

  // ---------------------------------------------------------------------
  // Append (add)
  // ---------------------------------------------------------------------

  /** Appending a record whose id is not yet present keeps the ids unique. */
  lemma AppendFreshKeepsUnique<T(!new)>(s: seq<T>, key: T -> Id, rec: T)
    requires IdsUnique(s, key) && !HasId(s, key, key(rec))
    ensures IdsUnique(s + [rec], key)
  {
  }

  // ---------------------------------------------------------------------
  // Delete
  // ---------------------------------------------------------------------

  /** The predicate `x => key(x) !== id` of the delete handlers. */
  function KeyIsNot<T(==,!new)>(key: T -> Id, id: Id): T -> bool {
    x => key(x) != id
  }

  /** `s.filter(x => key(x) !== id)`: drops every record carrying `id`. */
  function Delete<T(==,!new)>(s: seq<T>, key: T -> Id, id: Id): (r: seq<T>)
    ensures forall x :: x in r <==> x in s && key(x) != id
    ensures !HasId(r, key, id)
  {
    Filter(s, KeyIsNot(key, id))
  }

  /** Deletion keeps the remaining records in their original relative order. */
  lemma DeleteKeepsOrder<T(!new)>(s: seq<T>, key: T -> Id, id: Id)
    ensures IsSubsequence(Delete(s, key, id), s)
  {
    FilterIsSubsequence(s, KeyIsNot(key, id));
  }

  /** Deletion keeps every occurrence of every record whose id differs. */
  lemma DeleteMultiset<T(!new)>(s: seq<T>, key: T -> Id, id: Id)
    ensures forall x :: multiset(Delete(s, key, id))[x] == if key(x) != id then multiset(s)[x] else 0
  {
    FilterMultiset(s, KeyIsNot(key, id));
  }

  /** Deletion shortens the sequence by the number of records carrying the id. */
  lemma {:induction false} DeleteLength<T(!new)>(s: seq<T>, key: T -> Id, id: Id)
    ensures |Delete(s, key, id)| == |s| - CountId(s, key, id)
  {
    if s != [] {
      DeleteLength(s[1..], key, id);
    }
  }

  /** With unique ids, delete removes exactly one record when the id is
      present and none when it is absent. */
  lemma DeleteUniqueLength<T(!new)>(s: seq<T>, key: T -> Id, id: Id)
    requires IdsUnique(s, key)
    ensures |Delete(s, key, id)| == if HasId(s, key, id) then |s| - 1 else |s|
  {
    DeleteLength(s, key, id);
    UniqueCountAtMostOne(s, key, id);
  }

  /** Deleting an id that is not present leaves the sequence unchanged. */
  lemma DeleteAbsent<T(!new)>(s: seq<T>, key: T -> Id, id: Id)
    requires !HasId(s, key, id)
    ensures Delete(s, key, id) == s
  {
    FilterKeepsAll(s, KeyIsNot(key, id));
  }

  /** Deleting the same id twice is the same as deleting it once. */
  lemma DeleteIdempotent<T(!new)>(s: seq<T>, key: T -> Id, id: Id)
    ensures Delete(Delete(s, key, id), key, id) == Delete(s, key, id)
  {
    FilterIdempotent(s, KeyIsNot(key, id));
  }

  /** Deletion never creates duplicate ids. */
  lemma {:induction false} DeleteKeepsUnique<T(!new)>(s: seq<T>, key: T -> Id, id: Id)
    requires IdsUnique(s, key)
    ensures IdsUnique(Delete(s, key, id), key)
  {
    if s != [] {
      assert IdsUnique(s[1..], key);
      DeleteKeepsUnique(s[1..], key, id);
      var rest := Delete(s[1..], key, id);
      if key(s[0]) != id {
        var r := Delete(s, key, id);
        assert r == [s[0]] + rest;
        forall i, j | 0 <= i < j < |r| ensures key(r[i]) != key(r[j]) {
          if i == 0 {
            assert r[j] in s[1..];
            var m :| 0 <= m < |s[1..]| && s[1..][m] == r[j];
            assert s[m + 1] == r[j];
          } else {
            assert r[i] == rest[i - 1] && r[j] == rest[j - 1];
          }
        }
      }
    }
  }

  // ---------------------------------------------------------------------
  // Update
  // ---------------------------------------------------------------------

  /** `s.map(x => key(x) === key(rec) ? rec : x)`: every record carrying the id
      of `rec` is replaced by `rec`, in place; all others stay as they were. */
  function Update<T(==,!new)>(s: seq<T>, key: T -> Id, rec: T): (r: seq<T>)
    ensures |r| == |s|
    ensures forall i :: 0 <= i < |s| ==> r[i] == (if key(s[i]) == key(rec) then rec else s[i])
  {
    if s == [] then []
    else [if key(s[0]) == key(rec) then rec else s[0]] + Update(s[1..], key, rec)
  }

  /** Update never changes which id sits at which position. */
  lemma UpdateKeepsIds<T(!new)>(s: seq<T>, key: T -> Id, rec: T)
    ensures forall i :: 0 <= i < |s| ==> key(Update(s, key, rec)[i]) == key(s[i])
  {
  }

  /** Updating with an id that is not present leaves the sequence unchanged. */
  lemma UpdateAbsent<T(!new)>(s: seq<T>, key: T -> Id, rec: T)
    requires !HasId(s, key, key(rec))
    ensures Update(s, key, rec) == s
  {
  }

  /** With unique ids, updating the record at position k replaces exactly that
      record and leaves every other position as it was. */
  lemma UpdateReplacesOne<T(!new)>(s: seq<T>, key: T -> Id, rec: T, k: nat)
    requires IdsUnique(s, key)
    requires k < |s| && key(s[k]) == key(rec)
    ensures Update(s, key, rec)[k] == rec
    ensures forall j :: 0 <= j < |s| && j != k ==> Update(s, key, rec)[j] == s[j]
  {
  }

  /** Updating twice with the same record is updating once. */
  lemma UpdateIdempotent<T(!new)>(s: seq<T>, key: T -> Id, rec: T)
    ensures Update(Update(s, key, rec), key, rec) == Update(s, key, rec)
  {
  }

  /** Update never creates duplicate ids. */
  lemma UpdateKeepsUnique<T(!new)>(s: seq<T>, key: T -> Id, rec: T)
    requires IdsUnique(s, key)
    ensures IdsUnique(Update(s, key, rec), key)
  {
  }
}
