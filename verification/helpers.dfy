/**
 * The username index of helpers.js: a table from each lowercase letter to the
 * usernames that start with it, in the order they were added.
 *
 * `lowerCase` and `createLowerCaseObject` build the empty table, the grouping
 * loop of `updateUsers` fills it from the list of user ids the database
 * returns (a parameter here), and `addNewUser` / `updateOldUsername` update it
 * in place. A username whose first character has no bucket makes the
 * JavaScript code throw a TypeError; the methods report that with `ok` false
 * (or `None`) and show exactly how far the table was changed before it.
 */
module Helpers {
  import opened Wrappers

  /** Bucket table: `{ a: [...], b: [...], ..., z: [...] }`. */
  type Table = map<char, seq<string>>

  predicate IsLowerLetter(c: char) { 'a' <= c <= 'z' }

  // ---------------------------------------------------------------- lowerCase

  /** The 26 letters `a` .. `z` in order. */
  function Alphabet(): string
  {
    seq(26, k requires 0 <= k < 26 => (97 + k) as char)
  }

  /** `lowerCase`: `String.fromCharCode(97 + k)` appended for k = 0 .. 25. */
  method LowerCase() returns (letters: string)
    ensures letters == Alphabet()
  {
    var i := 97;
    letters := "";
    for k := 0 to 26
      invariant letters == Alphabet()[..k]
    {
      letters := letters + [(i + k) as char];
    }
  }

  /** The alphabet is the lowercase letters, each once, in increasing order. */
  lemma AlphabetLetters()
    ensures |Alphabet()| == 26
    ensures forall i, j :: 0 <= i < j < 26 ==> Alphabet()[i] < Alphabet()[j]
    ensures forall c :: c in Alphabet() <==> IsLowerLetter(c)
  {
    var a := Alphabet();
    forall c | IsLowerLetter(c)
      ensures c in a
    {
      assert a[c as int - 97] == c;
    }
  }

  // ---------------------------------------------------------------- createLowerCaseObject

  /** A table with one bucket per lowercase letter and no other key. */
  predicate HasLetterKeys(t: Table)
  {
    forall c :: c in t <==> IsLowerLetter(c)
  }

  /** `createLowerCaseObject()`: `obj[a] = []` for every letter of `lowerCase`. */
  method CreateLowerCaseObject() returns (obj: Table)
    ensures HasLetterKeys(obj)
    ensures forall c :: c in obj ==> obj[c] == []
  {
    var letters := Alphabet();
    obj := map[];
    for i := 0 to |letters|
      invariant forall c :: c in obj <==> c in letters[..i]
      invariant forall c :: c in obj ==> obj[c] == []
    {
      assert letters[..i + 1] == letters[..i] + [letters[i]];
      obj := obj[letters[i] := []];
    }
    assert letters[..|letters|] == letters;
    AlphabetLetters();
  }

  // ---------------------------------------------------------------- the table and its size

  /** `obj[u[0]]` exists for a name with a lowercase first character (and only for those). */
  predicate HasBucket(u: string)
  {
    |u| >= 1 && IsLowerLetter(u[0])
  }

  /** Every bucket holds only names that start with its letter. */
  predicate WellFormed(t: Table)
  {
    HasLetterKeys(t)
    && forall c, u :: c in t && u in t[c] ==> |u| >= 1 && u[0] == c
  }

  /** The number of names in the buckets of `letters`. */
  function SizeOver(t: Table, letters: string): nat
  {
    if letters == [] then 0
    else
      var c := letters[|letters| - 1];
      SizeOver(t, letters[..|letters| - 1]) + (if c in t then |t[c]| else 0)
  }

  /** The number of names in the table. */
  function TableSize(t: Table): nat
  {
    SizeOver(t, Alphabet())
  }

  predicate Distinct(letters: string)
  {
    forall i, j :: 0 <= i < j < |letters| ==> letters[i] != letters[j]
  }

  /** Replacing one bucket changes the size by the difference of the bucket lengths. */
  lemma {:induction false} SizeOverUpdate(t: Table, letters: string, c: char, b: seq<string>)
    requires Distinct(letters) && c in t
    ensures SizeOver(t[c := b], letters)
      == if c in letters then SizeOver(t, letters) - |t[c]| + |b| else SizeOver(t, letters)
  {
    if letters != [] {
      var init, last := letters[..|letters| - 1], letters[|letters| - 1];
      assert Distinct(init);
      SizeOverUpdate(t, init, c, b);
      assert c in letters <==> c in init || c == last;
      if c == last {
        assert c !in init by {
          forall i | 0 <= i < |init| ensures init[i] != c {
            assert letters[i] != letters[|letters| - 1];
          }
        }
      }
    }
  }

  /** A table of empty buckets holds no name. */
  lemma {:induction false} SizeOverEmpty(t: Table, letters: string)
    requires forall c :: c in t ==> t[c] == []
    ensures SizeOver(t, letters) == 0
  {
    if letters != [] {
      SizeOverEmpty(t, letters[..|letters| - 1]);
    }
  }

  /** Replacing the bucket of a lowercase letter changes the table size by the difference. */
  lemma TableSizeUpdate(t: Table, c: char, b: seq<string>)
    requires HasLetterKeys(t) && IsLowerLetter(c)
    ensures TableSize(t[c := b]) == TableSize(t) - |t[c]| + |b|
  {
    AlphabetLetters();
    assert Distinct(Alphabet());
    SizeOverUpdate(t, Alphabet(), c, b);
  }

  // ---------------------------------------------------------------- the grouping loop of updateUsers

  /** The names of `ids` that start with `c`, in the order of `ids`. */
  function Bucket(ids: seq<string>, c: char): (b: seq<string>)
    ensures forall u :: u in b ==> u in ids && |u| >= 1 && u[0] == c
  {
    if ids == [] then []
    else
      var u := ids[|ids| - 1];
      Bucket(ids[..|ids| - 1], c) + (if |u| >= 1 && u[0] == c then [u] else [])
  }

  /** The table `updateUsers` builds from `ids`. */
  function Grouped(ids: seq<string>): (t: Table)
  {
    map c: char | IsLowerLetter(c) :: Bucket(ids, c)
  }

  /**
   * `for (u of ids) userObject[u[0]].push(u)` starting from
   * `createLowerCaseObject()`. It throws (None) when some id has no bucket;
   * otherwise the result is `Grouped(ids)`.
   */
  method UpdateUsers(ids: seq<string>) returns (r: Option<Table>)
    ensures r.None? <==> exists i :: 0 <= i < |ids| && !HasBucket(ids[i])
    ensures r.Some? ==> r.value == Grouped(ids)
  {
    var userObject := CreateLowerCaseObject();
    GroupedEmpty(userObject);
    var i := 0;
    while i < |ids|
      invariant 0 <= i <= |ids|
      invariant userObject == Grouped(ids[..i])
      invariant forall j :: 0 <= j < i ==> HasBucket(ids[j])
    {
      var u := ids[i];
      GroupedKey(ids[..i], u);
      if u == [] || u[0] !in userObject {
        return None;
      }
      assert HasBucket(u);
      assert forall j :: 0 <= j < i + 1 ==> HasBucket(ids[j]);
      GroupedStep(ids, i);
      userObject := userObject[u[0] := userObject[u[0]] + [u]];
      i := i + 1;
    }
    assert ids[..i] == ids;
    return Some(userObject);
  }

  /** In a grouped table, `u[0]` is a key exactly when `u` has a bucket. */
  lemma GroupedKey(ids: seq<string>, u: string)
    ensures (u == [] || u[0] !in Grouped(ids)) <==> !HasBucket(u)
  {
  }

  /** The table `createLowerCaseObject` returns is the grouping of no ids. */
  lemma GroupedEmpty(obj: Table)
    requires HasLetterKeys(obj) && forall c :: c in obj ==> obj[c] == []
    ensures obj == Grouped([])
  {
  }

  /** One turn of the grouping loop. */
  lemma GroupedStep(ids: seq<string>, i: nat)
    requires i < |ids| && HasBucket(ids[i])
    ensures var t := Grouped(ids[..i]);
      Grouped(ids[..i + 1]) == t[ids[i][0] := t[ids[i][0]] + [ids[i]]]
  {
    assert ids[..i + 1] == ids[..i] + [ids[i]];
    GroupedSnoc(ids[..i], ids[i]);
  }

  /** Grouping one more id appends it to its bucket and leaves the others alone. */
  lemma GroupedSnoc(ids: seq<string>, u: string)
    requires HasBucket(u)
    ensures Grouped(ids + [u]) == Grouped(ids)[u[0] := Grouped(ids)[u[0]] + [u]]
  {
    var s := ids + [u];
    assert s[..|s| - 1] == ids;
    var g, h := Grouped(s), Grouped(ids)[u[0] := Grouped(ids)[u[0]] + [u]];
    forall c | IsLowerLetter(c)
      ensures g[c] == h[c]
    {
      assert Bucket(s, c) == Bucket(ids, c) + (if u[0] == c then [u] else []);
    }
    assert g.Keys == h.Keys;
  }

  /** Grouping distributes over concatenation: each bucket keeps the order of the input. */
  lemma {:induction false} BucketAppend(a: seq<string>, b: seq<string>, c: char)
    ensures Bucket(a + b, c) == Bucket(a, c) + Bucket(b, c)
  {
    if b != [] {
      var b' := b[..|b| - 1];
      BucketAppend(a, b', c);
      assert (a + b)[..|a + b| - 1] == a + b';
    } else {
      assert a + b == a;
    }
  }

  /** Every grouped table is well formed, and a name is in bucket c exactly when it is an id that starts with c. */
  lemma GroupedMembership(ids: seq<string>)
    ensures WellFormed(Grouped(ids))
    ensures forall c, u :: IsLowerLetter(c) ==> (u in Grouped(ids)[c] <==> u in ids && |u| >= 1 && u[0] == c)
  {
    forall c, u | IsLowerLetter(c) && u in ids && |u| >= 1 && u[0] == c
      ensures u in Bucket(ids, c)
    {
      var i :| 0 <= i < |ids| && ids[i] == u;
      assert ids == ids[..i] + [u] + ids[i + 1..];
      BucketAppend(ids[..i] + [u], ids[i + 1..], c);
      BucketAppend(ids[..i], [u], c);
      assert Bucket([u], c) == [u] by { assert [u][..0] == []; }
    }
  }

  /** When every id has a bucket, the buckets together hold as many names as there are ids. */
  lemma {:induction false} GroupedTotal(ids: seq<string>)
    requires forall i :: 0 <= i < |ids| ==> HasBucket(ids[i])
    ensures TableSize(Grouped(ids)) == |ids|
  {
    if ids == [] {
      SizeOverEmpty(Grouped(ids), Alphabet());
    } else {
      var init, u := ids[..|ids| - 1], ids[|ids| - 1];
      GroupedTotal(init);
      assert ids == init + [u];
      GroupedSnoc(init, u);
      TableSizeUpdate(Grouped(init), u[0], Grouped(init)[u[0]] + [u]);
    }
  }

  // ---------------------------------------------------------------- addNewUser / updateOldUsername

  /** `t[u[0]].push(u)`. */
  function Added(t: Table, u: string): Table
    requires |u| >= 1 && u[0] in t
  {
    t[u[0] := t[u[0]] + [u]]
  }

  /** `s.indexOf(x)`: the first index of `x`, or -1. */
  function IndexOf(s: seq<string>, x: string): (r: int)
    ensures -1 <= r < |s|
    ensures r == -1 <==> x !in s
    ensures r >= 0 ==> s[r] == x && x !in s[..r]
  {
    if s == [] then -1
    else if s[0] == x then 0
    else
      var r := IndexOf(s[1..], x);
      assert x in s <==> x in s[1..] by { assert s == [s[0]] + s[1..]; }
      if r == -1 then -1
      else
        assert s[..r + 1] == [s[0]] + s[1..][..r];
        r + 1
  }

  /**
   * `s.splice(start, 1)` as it changes `s`: a negative start counts from the
   * end (and is clamped to 0), a start past the end removes nothing.
   */
  function Splice1(s: seq<string>, start: int): (r: seq<string>)
    ensures |s| - 1 <= |r| <= |s| && multiset(r) <= multiset(s)
  {
    var k := if start < 0 then (if |s| + start < 0 then 0 else |s| + start) else start;
    if k < |s| then
      assert s == s[..k] + [s[k]] + s[k + 1..];
      s[..k] + s[k + 1..]
    else s
  }

  /** Line 41 of updateOldUsername: `t[o[0]].splice(t[o[0]].indexOf(o), 1)`. */
  function RemovedOld(t: Table, o: string): Table
    requires |o| >= 1 && o[0] in t
  {
    t[o[0] := Splice1(t[o[0]], IndexOf(t[o[0]], o))]
  }

  /** A present old name: its first occurrence leaves its bucket, and nothing else does. */
  lemma RemovedOldPresent(t: Table, o: string)
    requires |o| >= 1 && o[0] in t && o in t[o[0]]
    ensures var s, i := t[o[0]], IndexOf(t[o[0]], o);
      RemovedOld(t, o)[o[0]] == s[..i] + s[i + 1..]
      && multiset(RemovedOld(t, o)[o[0]]) == multiset(s) - multiset{o}
  {
    var s, i := t[o[0]], IndexOf(t[o[0]], o);
    assert s == s[..i] + [o] + s[i + 1..];
  }

  /**
   * An absent old name: `indexOf` gives -1 and `splice(-1, 1)` removes the
   * LAST name of the bucket (some other user's), not nothing.
   */
  lemma RemovedOldAbsent(t: Table, o: string)
    requires |o| >= 1 && o[0] in t && o !in t[o[0]] && t[o[0]] != []
    ensures RemovedOld(t, o)[o[0]] == t[o[0]][..|t[o[0]]| - 1]
  {
  }

  /** For example, renaming the absent "ad" drops "ac" from ["ab", "ac"]. */
  lemma RemovedOldAbsentExample()
    ensures RemovedOld(map['a' := ["ab", "ac"]], "ad")['a'] == ["ab"]
  {
    var t: Table := map['a' := ["ab", "ac"]];
    assert "ad" !in t['a'] by {
      assert t['a'][0] != "ad" by { assert t['a'][0][1] == 'b'; }
      assert t['a'][1] != "ad" by { assert t['a'][1][1] == 'c'; }
    }
    RemovedOldAbsent(t, "ad");
  }

  /** Adding a name keeps the table well formed and adds one to its size. */
  lemma AddedProperties(t: Table, u: string)
    requires WellFormed(t) && HasBucket(u)
    ensures WellFormed(Added(t, u))
    ensures TableSize(Added(t, u)) == TableSize(t) + 1
    ensures u in Added(t, u)[u[0]]
  {
    TableSizeUpdate(t, u[0], t[u[0]] + [u]);
  }

  /** Removing a present name keeps the table well formed and takes one from its size. */
  lemma RemovedOldProperties(t: Table, o: string)
    requires WellFormed(t) && |o| >= 1 && o[0] in t && o in t[o[0]]
    ensures WellFormed(RemovedOld(t, o))
    ensures TableSize(RemovedOld(t, o)) == TableSize(t) - 1
  {
    RemovedOldWellFormed(t, o);
    RemovedOldPresent(t, o);
    var s, i := t[o[0]], IndexOf(t[o[0]], o);
    TableSizeUpdate(t, o[0], s[..i] + s[i + 1..]);
  }

  /** Renaming a present name to one with a bucket keeps the number of names. */
  lemma RenameKeepsSize(t: Table, o: string, n: string)
    requires WellFormed(t) && |o| >= 1 && o[0] in t && o in t[o[0]] && HasBucket(n)
    ensures WellFormed(Added(RemovedOld(t, o), n))
    ensures TableSize(Added(RemovedOld(t, o), n)) == TableSize(t)
  {
    RemovedOldProperties(t, o);
    AddedProperties(RemovedOld(t, o), n);
  }

  /** Splicing one element out of a well-formed bucket keeps it well formed. */
  lemma RemovedOldWellFormed(t: Table, o: string)
    requires WellFormed(t) && |o| >= 1 && o[0] in t
    ensures WellFormed(RemovedOld(t, o))
  {
    var s := t[o[0]];
    var r := Splice1(s, IndexOf(s, o));
    forall u | u in r ensures u in s {
      var j :| 0 <= j < |r| && r[j] == u;
      var k := IndexOf(s, o);
      var st := if k < 0 then (if |s| + k < 0 then 0 else |s| + k) else k;
      if st < |s| {
        if j < st { assert r[j] == s[j]; } else { assert r[j] == s[j + 1]; }
      }
    }
  }

  /** The user index: `this.users`, one bucket per lowercase letter. */
  class Globals {
    var users: Table

    ghost predicate Valid()
      reads this
    {
      WellFormed(users)
    }

    /** The table `updateUsers` builds from the ids the user query returns. */
    constructor (ids: seq<string>)
      requires forall i :: 0 <= i < |ids| ==> HasBucket(ids[i])
      ensures users == Grouped(ids) && Valid()
    {
      var r := UpdateUsers(ids);
      users := r.value;
      GroupedMembership(ids);
    }

    /**
     * `addNewUser(username)`: push onto the bucket of its first character;
     * throws (ok false, nothing changed) when there is no such bucket.
     */
    method AddNewUser(username: string) returns (ok: bool)
      requires Valid()
      modifies this
      ensures Valid()
      ensures ok <==> HasBucket(username)
      ensures users == if ok then Added(old(users), username) else old(users)
    {
      if username == [] || username[0] !in users {
        return false;
      }
      AddedProperties(users, username);
      users := users[username[0] := users[username[0]] + [username]];
      return true;
    }

    /**
     * `updateOldUsername(o, n)`: splice `o` out of its bucket, then push `n`
     * onto its own. Throws before changing anything when `o` has no bucket,
     * and after the splice when `n` has none.
     */
    method UpdateOldUsername(o: string, n: string) returns (ok: bool)
      requires Valid()
      modifies this
      ensures Valid()
      ensures ok <==> HasBucket(o) && HasBucket(n)
      ensures !HasBucket(o) ==> users == old(users)
      ensures HasBucket(o) && !HasBucket(n) ==> users == RemovedOld(old(users), o)
      ensures ok ==> users == Added(RemovedOld(old(users), o), n)
    {
      if o == [] || o[0] !in users {
        return false;
      }
      var bucket := users[o[0]];
      RemovedOldWellFormed(users, o);
      users := users[o[0] := Splice1(bucket, IndexOf(bucket, o))];
      if n == [] || n[0] !in users {
        return false;
      }
      AddedProperties(users, n);
      users := users[n[0] := users[n[0]] + [n]];
      return true;
    }
  }
}
