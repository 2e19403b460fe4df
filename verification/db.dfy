/**
 * The three rules of db.js that do not talk to the database: the e-mail
 * validator of `CollectionObject`, the first/last name merge of
 * `UserObject.updateName`, and the username lookup of
 * `UserObject.usernameAlreadyExists` against the bucket index of helpers.js.
 */
module Db {
  import opened Wrappers
  import opened Helpers

  // ---------------------------------------------------------------- isEmailValid

  /** The character classes of the pattern `^[a-z][a-z0-9_.-]+@[a-z0-9-]+\.[a-z]+`. */
  datatype CharClass = Local | Domain

  predicate IsDecimal(c: char) { '0' <= c <= '9' }

  /** `[a-z0-9_.-]` for `Local`, `[a-z0-9-]` for `Domain`. */
  predicate InClass(c: char, cls: CharClass)
  {
    IsLowerLetter(c) || IsDecimal(c) || c == '-' || (cls == Local && (c == '_' || c == '.'))
  }

  /** The end of the longest run of `cls` characters that starts at `i`. */
  function RunEnd(e: string, i: nat, cls: CharClass): (r: nat)
    requires i <= |e|
    ensures i <= r <= |e|
    ensures forall k :: i <= k < r ==> InClass(e[k], cls)
    ensures r < |e| ==> !InClass(e[r], cls)
    decreases |e| - i
  {
    if i == |e| || !InClass(e[i], cls) then i else RunEnd(e, i + 1, cls)
  }

  /**
   * `/^[a-z][a-z0-9_\.-]+\@[a-z0-9\-]+\.[a-z]+/.test(email)`. Neither '@'
   * nor '.' can be swallowed by the run before it ('@' is in no class and
   * '.' is not in the domain class), so the match is found by scanning each
   * run to its end; the pattern is not anchored at the end, so one letter
   * after the dot is enough.
   */
  function IsEmailValid(e: string): (r: bool)
    ensures r ==> |e| >= 6 && IsLowerLetter(e[0])
  {
    if |e| < 1 || !IsLowerLetter(e[0]) then false
    else
      var at := RunEnd(e, 1, Local);
      if at < 2 || at >= |e| || e[at] != '@' then false
      else
        var dot := RunEnd(e, at + 1, Domain);
        dot >= at + 2 && dot + 1 < |e| && e[dot] == '.' && IsLowerLetter(e[dot + 1])
  }

  /** A match of the pattern from position 0 with its '@' at `at` and its '.' at `dot`. */
  ghost predicate MatchAt(e: string, at: int, dot: int)
  {
    2 <= at && at + 2 <= dot && dot + 1 < |e|
    && IsLowerLetter(e[0])
    && (forall k :: 1 <= k < at ==> InClass(e[k], Local))
    && e[at] == '@'
    && (forall k :: at < k < dot ==> InClass(e[k], Domain))
    && e[dot] == '.'
    && IsLowerLetter(e[dot + 1])
  }

  ghost predicate MatchesPattern(e: string)
  {
    exists at, dot :: MatchAt(e, at, dot)
  }

  /** A run of class characters that stops at a character outside the class ends exactly there. */
  lemma RunEndExact(e: string, i: nat, j: nat, cls: CharClass)
    requires i <= j < |e|
    requires forall k :: i <= k < j ==> InClass(e[k], cls)
    requires !InClass(e[j], cls)
    ensures RunEnd(e, i, cls) == j
  {
  }

  /** The validator accepts exactly the strings that have a prefix matching the pattern. */
  lemma EmailValidMatches(e: string)
    ensures IsEmailValid(e) <==> MatchesPattern(e)
  {
    if IsEmailValid(e) {
      var at := RunEnd(e, 1, Local);
      var dot := RunEnd(e, at + 1, Domain);
      assert MatchAt(e, at, dot);
    }
    if MatchesPattern(e) {
      var at, dot :| MatchAt(e, at, dot);
      RunEndExact(e, 1, at, Local);
      RunEndExact(e, at + 1, dot, Domain);
    }
  }

  /** Trailing text after a matching prefix is accepted. */
  lemma EmailTrailingText()
    ensures IsEmailValid("ab@c.d!")
  {
    var e := "ab@c.d!";
    RunEndExact(e, 1, 2, Local);
    RunEndExact(e, 3, 4, Domain);
  }

  /** An upper-case first letter is rejected. */
  lemma EmailUpperCaseFirst()
    ensures !IsEmailValid("Ab@c.d")
  {
  }

  /** A one-character local part is rejected: `[a-z0-9_.-]+` needs a second character. */
  lemma EmailShortLocalPart()
    ensures !IsEmailValid("a@c.d")
  {
    var e := "a@c.d";
    RunEndExact(e, 1, 1, Local);
  }

  /** An empty domain label before the dot is rejected. */
  lemma EmailEmptyDomain()
    ensures !IsEmailValid("ab@.d")
  {
    var e := "ab@.d";
    RunEndExact(e, 1, 2, Local);
    RunEndExact(e, 3, 3, Domain);
  }

  // ---------------------------------------------------------------- updateName

  /** The `name` record of a user: `{ first, last }`. */
  datatype Name = Name(first: string, last: string)

  /** `v && v.length > 0` for an argument that may be `undefined` (None). */
  predicate Given(v: Option<string>)
  {
    v.Some? && |v.value| > 0
  }

  /** The merged name: each field is replaced only by a non-empty new value. */
  function Merged(current: Name, newFirst: Option<string>, newLast: Option<string>): (r: Name)
    ensures Given(newFirst) ==> r.first == newFirst.value
    ensures !Given(newFirst) ==> r.first == current.first
    ensures Given(newLast) ==> r.last == newLast.value
    ensures !Given(newLast) ==> r.last == current.last
  {
    Name(if Given(newFirst) then newFirst.value else current.first,
         if Given(newLast) then newLast.value else current.last)
  }

  /**
   * The merge of `updateName`: start from the current first and last name
   * and overwrite a field when its new value is given and non-empty.
   */
  method UpdateName(current: Name, newFirst: Option<string>, newLast: Option<string>) returns (newName: Name)
    ensures newName == Merged(current, newFirst, newLast)
  {
    newName := Name(current.first, current.last);
    if newFirst.Some? && |newFirst.value| > 0 {
      newName := newName.(first := newFirst.value);
    }
    if newLast.Some? && |newLast.value| > 0 {
      newName := newName.(last := newLast.value);
    }
  }

  /** With nothing given (missing or empty arguments) the name is unchanged. */
  lemma MergedNothingGiven(current: Name, newFirst: Option<string>, newLast: Option<string>)
    requires !Given(newFirst) && !Given(newLast)
    ensures Merged(current, newFirst, newLast) == current
  {
  }

  /** Repeating an update with the same arguments changes nothing more. */
  lemma MergedIdempotent(current: Name, newFirst: Option<string>, newLast: Option<string>)
    ensures var once := Merged(current, newFirst, newLast);
      Merged(once, newFirst, newLast) == once
  {
  }

  /** A name with non-empty fields keeps non-empty fields whatever the update. */
  lemma MergedKeepsNonEmpty(current: Name, newFirst: Option<string>, newLast: Option<string>)
    requires |current.first| > 0 && |current.last| > 0
    ensures |Merged(current, newFirst, newLast).first| > 0
    ensures |Merged(current, newFirst, newLast).last| > 0
  {
  }

  // ---------------------------------------------------------------- usernameAlreadyExists

  /**
   * `__globals.users[username[0]].includes(username)` on the index `users`:
   * None when the lookup throws (empty name, or no bucket for its first
   * character).
   */
  function UsernameAlreadyExists(users: Table, u: string): (r: Option<bool>)
    ensures WellFormed(users) ==> (r.None? <==> !HasBucket(u))
    ensures WellFormed(users) ==> (r == Some(true) <==> exists c :: c in users && u in users[c])
  {
    if u == [] || u[0] !in users then None else Some(u in users[u[0]])
  }

  /** A name with a bucket is known exactly when it was among the grouped ids. */
  lemma ExistsInGrouped(ids: seq<string>, u: string)
    requires HasBucket(u)
    ensures UsernameAlreadyExists(Grouped(ids), u) == Some(u in ids)
  {
    GroupedMembership(ids);
  }

  /** After `addNewUser(u)` the name exists. */
  lemma ExistsAfterAdd(t: Table, u: string)
    requires WellFormed(t) && HasBucket(u)
    ensures UsernameAlreadyExists(Added(t, u), u) == Some(true)
  {
    AddedProperties(t, u);
  }

  /**
   * After `updateOldUsername(o, n)` with `o` present once, `o` no longer
   * exists and `n` does.
   */
  lemma ExistsAfterRename(t: Table, o: string, n: string)
    requires WellFormed(t) && |o| >= 1 && o[0] in t && multiset(t[o[0]])[o] == 1
    requires HasBucket(n) && n != o
    ensures UsernameAlreadyExists(Added(RemovedOld(t, o), n), o) == Some(false)
    ensures UsernameAlreadyExists(Added(RemovedOld(t, o), n), n) == Some(true)
  {
    assert o in t[o[0]];
    RemovedOldPresent(t, o);
    RemovedOldProperties(t, o);
    var t' := RemovedOld(t, o);
    assert o !in t'[o[0]] by {
      assert multiset(t'[o[0]])[o] == 0;
    }
    AddedProperties(t', n);
    assert Added(t', n)[o[0]] == if n[0] == o[0] then t'[o[0]] + [n] else t'[o[0]];
  }
}
