/**
 * What the codec of tokenizer.js promises: decrypting a token gives back the
 * plaintext, whatever order the shuffle put the chunks in, as long as every
 * field fits its width and the year segment carries no '-'.
 */
module TokenizerRoundTrip {
  import opened Wrappers
  import opened JsText
  import opened Tokenizer

  // ------------------------------------------------------------ splitting

  /** A string without the separator splits into itself alone. */
  lemma {:induction false} SplitNoSep(a: string, c: char)
    requires c !in a
    ensures Split(a, c) == [a]
  {
    if a != [] {
      SplitNoSep(a[1..], c);
      assert [a[0]] + a[1..] == a;
    }
  }

  /** Splitting at the first separator: the part before it, then the pieces of the rest. */
  lemma {:induction false} SplitFirst(a: string, b: string, c: char)
    requires c !in a
    ensures Split(a + [c] + b, c) == [a] + Split(b, c)
  {
    var s := a + [c] + b;
    if a == [] {
      assert s[1..] == b;
    } else {
      assert s[1..] == a[1..] + [c] + b;
      SplitFirst(a[1..], b, c);
      assert [a[0]] + a[1..] == a;
    }
  }

  // ------------------------------------------------------------ reading the key

  /**
   * The key loop over the reversed suffix `Y + K` reads, after i rounds, the
   * value of the last i digits of `K`.
   */
  lemma {:induction false} KeySumOfTail(y: string, k: string, i: nat)
    requires AllDigits(k) && i <= |k|
    ensures KeySum(Reverse(y + k), i) == Val(DigitsValue(k[|k| - i..]))
  {
    if i == 0 {
      assert k[|k|..] == [];
    } else {
      KeySumOfTail(y, k, i - 1);
      ReversedAt(y, k, i);
      KeyStep(Reverse(y + k), i, k[|k| - i]);
      TailValue(k, i);
    }
  }

  /** Round i of the key loop adds the digit it reads times 10^(i - 1). */
  lemma KeyStep(rev: string, i: nat, d: char)
    requires 1 <= i && IsDigit(d) && At(rev, i - 1) == Some(d)
    ensures KeySum(rev, i) == Plus(KeySum(rev, i - 1), Val(DigitValue(d) * Pow10(i - 1)))
  {
  }

  /** The last i digits of `k` are the i-th digit from the end, weighted, plus the last i - 1. */
  lemma TailValue(k: string, i: nat)
    requires AllDigits(k) && 1 <= i <= |k|
    ensures DigitsValue(k[|k| - i..]) == DigitValue(k[|k| - i]) * Pow10(i - 1) + DigitsValue(k[|k| - (i - 1)..])
  {
    var d, tail := k[|k| - i], k[|k| - (i - 1)..];
    assert k[|k| - i..] == [d] + tail;
    ConsValue(d, tail);
  }

  /** Element i - 1 of the reversed `Y + K` is the i-th digit of `K` from the end. */
  lemma ReversedAt(y: string, k: string, i: nat)
    requires 1 <= i <= |k|
    ensures At(Reverse(y + k), i - 1) == Some(k[|k| - i])
  {
    assert Reverse(y + k)[i - 1] == (y + k)[|y + k| - i];
  }

  /** A digit in front weighs ten to the number of digits behind it. */
  lemma ConsValue(d: char, tail: string)
    requires IsDigit(d) && AllDigits(tail)
    ensures AllDigits([d] + tail)
    ensures DigitsValue([d] + tail) == DigitValue(d) * Pow10(|tail|) + DigitsValue(tail)
  {
    assert DigitsValue([d]) == DigitValue(d) by { assert [d][..0] == []; }
    DigitsValueAppend([d], tail);
  }

  /** The key loop run for as many rounds as `K` has digits reads `K`'s value. */
  lemma KeyRecovered(y: string, k: string)
    requires AllDigits(k)
    ensures KeySum(Reverse(y + k), |k|) == Val(DigitsValue(k))
  {
    KeySumOfTail(y, k, |k|);
    assert k[0..] == k;
  }

  // ------------------------------------------------------------ reading the chunks

  /** The elements of a string as `splice` hands them out: all defined. */
  function Somes(c: string): (g: Group)
    ensures |g| == |c| && forall k :: 0 <= k < |c| ==> g[k] == Some(c[k])
  {
    seq(|c|, k requires 0 <= k < |c| => Some(c[k]))
  }

  /** After t rounds the field loop holds the value of the first t digits, shifted to its weight. */
  lemma {:induction false} PartialOfDigits(s: string, t: nat)
    requires AllDigits(s) && t <= |s|
    ensures Partial(Somes(s), t) == Val(DigitsValue(s[..t]) * Pow10(|s| - t))
  {
    if t == 0 {
      assert s[..0] == [];
    } else {
      PartialOfDigits(s, t - 1);
      var d := s[t - 1];
      assert SlotNumber(Somes(s)[t - 1]) == Val(DigitValue(d));
      assert s[..t][..t - 1] == s[..t - 1];
      var v, p := DigitsValue(s[..t - 1]), Pow10(|s| - t);
      assert Pow10(|s| - (t - 1)) == 10 * p;
      assert DigitsValue(s[..t]) == v * 10 + DigitValue(d);
      PartialStep(Somes(s), t, v * (10 * p), DigitValue(d));
      ShiftStep(v, p, DigitValue(d));
    }
  }

  /** One round of the field loop adds the element's number at its weight. */
  lemma PartialStep(ds: seq<Option<char>>, t: nat, a: int, b: int)
    requires 1 <= t <= |ds| && Partial(ds, t - 1) == Val(a) && SlotNumber(ds[t - 1]) == Val(b)
    ensures Partial(ds, t) == Val(a + b * Pow10(|ds| - t))
  {
  }

  lemma ShiftStep(v: int, p: int, d: int)
    ensures v * (10 * p) + d * p == (v * 10 + d) * p
  {
  }

  /** A field of digits reads as the value of the digits. */
  lemma FieldOfDigits(s: string)
    requires AllDigits(s)
    ensures Field(Somes(s)) == Val(DigitsValue(s))
  {
    PartialOfDigits(s, |s|);
    assert s[..|s|] == s;
  }

  /** A group of five digits writes slot (last two digits - key) with code (first three digits - key). */
  lemma GroupOfDigits(c: string, key: int)
    requires |c| == 5 && AllDigits(c)
    ensures SlotOf(Somes(c), Val(key)) == Val(DigitsValue(c[3..]) - key)
    ensures CodeOf(Somes(c), Val(key)) == FromCharCode(Val(DigitsValue(c[..3]) - key))
  {
    var g := Somes(c);
    var lo, hi := c[..3], c[3..];
    assert g[..3] == Somes(lo);
    assert g[3..] == Somes(hi);
    FieldOfDigits(lo);
    FieldOfDigits(hi);
  }

  /**
   * A five-digit chunk whose fields read as code + key and j + key is
   * written to slot j and holds the character with that code.
   */
  lemma ChunkPlacement(c: string, code: CodeUnit, j: nat, key: nat)
    requires |c| == 5 && AllDigits(c)
    requires DigitsValue(c[..3]) == code + key && DigitsValue(c[3..]) == j + key
    ensures SlotOf(Somes(c), Val(key)) == Val(j)
    ensures CodeOf(Somes(c), Val(key)) == code
  {
    GroupOfDigits(c, key);
  }

  /** Element 5i + k of a join of five-character parts is element k of part i. */
  lemma {:induction false} JoinOfFivesAt(parts: seq<string>, i: nat, k: nat)
    requires forall c :: c in parts ==> |c| == 5
    requires i < |parts| && k < 5
    ensures |Join(parts)| == 5 * |parts|
    ensures Join(parts)[5 * i + k] == parts[i][k]
  {
    var init := parts[..|parts| - 1];
    assert forall c :: c in init ==> c in parts;
    assert parts[|parts| - 1] in parts;
    if i < |parts| - 1 {
      JoinOfFivesAt(init, i, k);
    } else if |parts| > 1 {
      JoinOfFivesAt(init, 0, 0);
    }
  }

  /** Group i of a join of five-character parts is part i. */
  lemma GroupOfJoinAt(parts: seq<string>, i: nat)
    requires forall c :: c in parts ==> |c| == 5
    requires i < |parts|
    ensures |Groups(Join(parts))| == |parts|
    ensures Groups(Join(parts))[i] == Somes(parts[i])
  {
    var p := Join(parts);
    JoinOfFivesAt(parts, 0, 0);
    assert |Groups(p)| == (5 * |parts| + 4) / 5 == |parts|;
    var g := Groups(p)[i];
    assert parts[i] in parts;
    forall k | 0 <= k < 5
      ensures g[k] == Some(parts[i][k])
    {
      JoinOfFivesAt(parts, i, k);
      GroupsAt(p, i, k);
    }
  }

  /** Cutting a join of five-character parts into groups gives the parts back, one group per part. */
  lemma GroupsOfJoin(parts: seq<string>)
    requires forall c :: c in parts ==> |c| == 5
    ensures |Groups(Join(parts))| == |parts|
    ensures forall i :: 0 <= i < |parts| ==> Groups(Join(parts))[i] == Somes(parts[i])
  {
    if parts == [] {
      assert Join(parts) == [];
    } else {
      GroupOfJoinAt(parts, 0);
    }
    forall i | 0 <= i < |parts|
      ensures Groups(Join(parts))[i] == Somes(parts[i])
    {
      GroupOfJoinAt(parts, i);
    }
  }

  // ------------------------------------------------------------ placing the characters

  /** Every group writes an in-range slot, and the character `target` has there. */
  ghost predicate PlacesInto(gs: seq<Group>, key: Num, target: Text)
  {
    forall g :: g in gs ==>
      |g| == 5 && SlotOf(g, key).Val? && 0 <= SlotOf(g, key).v < |target|
      && CodeOf(g, key) == target[SlotOf(g, key).v]
  }

  /** Some group writes slot j. */
  ghost predicate Hit(gs: seq<Group>, key: Num, j: int)
  {
    exists g :: g in gs && |g| == 5 && SlotOf(g, key) == Val(j)
  }

  /**
   * When every group writes an in-range slot with the character `target` has
   * there, the values after all writes are `target`'s characters at the slots
   * some group writes, and the old values elsewhere, whatever the order.
   */
  lemma {:induction false} FillCharacterized(values: seq<seq<CodeUnit>>, gs: seq<Group>, key: Num, target: Text)
    requires |values| == |target| && PlacesInto(gs, key, target)
    ensures forall i :: 0 <= i < |gs| ==> |gs[i]| == 5
    ensures |Fill(values, gs, key)| == |values|
    ensures forall j :: 0 <= j < |values| ==>
      Fill(values, gs, key)[j] == if Hit(gs, key, j) then [target[j]] else values[j]
    decreases |gs|
  {
    PlacesIntoShape(gs, key, target);
    if gs != [] {
      var g := gs[0];
      var s := SlotOf(g, key).v;
      var next := Place(values, SlotOf(g, key), CodeOf(g, key));
      PlaceOfFirst(values, gs, key, target);
      FillCharacterized(next, gs[1..], key, target);
      forall j | 0 <= j < |values|
        ensures Hit(gs, key, j) <==> Hit(gs[1..], key, j) || j == s
      {
        HitCons(gs, key, j);
      }
    }
  }

  /** Groups that place into `target` all have five elements. */
  lemma PlacesIntoShape(gs: seq<Group>, key: Num, target: Text)
    requires PlacesInto(gs, key, target)
    ensures forall i :: 0 <= i < |gs| ==> |gs[i]| == 5
  {
    assert forall i :: 0 <= i < |gs| ==> gs[i] in gs;
  }

  /** The first group's write puts `target`'s character at its slot, and the rest still place into `target`. */
  lemma PlaceOfFirst(values: seq<seq<CodeUnit>>, gs: seq<Group>, key: Num, target: Text)
    requires |values| == |target| && PlacesInto(gs, key, target) && gs != []
    ensures |gs[0]| == 5 && SlotOf(gs[0], key).Val? && 0 <= SlotOf(gs[0], key).v < |values|
    ensures var s := SlotOf(gs[0], key).v;
      Place(values, SlotOf(gs[0], key), CodeOf(gs[0], key)) == values[s := [target[s]]]
    ensures PlacesInto(gs[1..], key, target)
  {
    assert gs[0] in gs;
    assert forall h :: h in gs[1..] ==> h in gs;
  }

  /** Slot j is written by a list of groups when the first writes it or the rest do. */
  lemma HitCons(gs: seq<Group>, key: Num, j: int)
    requires gs != [] && |gs[0]| == 5
    ensures Hit(gs, key, j) <==> Hit(gs[1..], key, j) || SlotOf(gs[0], key) == Val(j)
  {
    if Hit(gs, key, j) {
      var h :| h in gs && |h| == 5 && SlotOf(h, key) == Val(j);
      if h != gs[0] {
        assert h in gs[1..];
      }
    }
    if Hit(gs[1..], key, j) {
      var h :| h in gs[1..] && |h| == 5 && SlotOf(h, key) == Val(j);
      assert h in gs;
    }
    if SlotOf(gs[0], key) == Val(j) {
      assert gs[0] in gs;
    }
  }

  /**
   * Decrypting places each group independently of the others: any
   * reordering of groups that write in-range slots with consistent
   * characters yields the same values.
   */
  lemma FillOrderIrrelevant(values: seq<seq<CodeUnit>>, gs: seq<Group>, hs: seq<Group>, key: Num, target: Text)
    requires |values| == |target| && PlacesInto(gs, key, target)
    requires multiset(gs) == multiset(hs)
    ensures forall i :: 0 <= i < |gs| ==> |gs[i]| == 5
    ensures forall i :: 0 <= i < |hs| ==> |hs[i]| == 5
    ensures Fill(values, gs, key) == Fill(values, hs, key)
  {
    assert forall g :: g in gs <==> g in hs by {
      forall g ensures g in gs <==> g in hs {
        assert g in gs <==> g in multiset(gs);
        assert g in hs <==> g in multiset(hs);
      }
    }
    FillCharacterized(values, gs, key, target);
    FillCharacterized(values, hs, key, target);
    forall j | 0 <= j < |values|
      ensures Hit(gs, key, j) == Hit(hs, key, j)
    {
    }
  }

  /** Joining one-character slots spells out the characters in order. */
  lemma {:induction false} JoinSingletons(t: Text)
    ensures Join(seq(|t|, j requires 0 <= j < |t| => [t[j]])) == t
  {
    if t != [] {
      var parts := seq(|t|, j requires 0 <= j < |t| => [t[j]]);
      var init := t[..|t| - 1];
      JoinSingletons(init);
      assert parts[..|parts| - 1] == seq(|init|, j requires 0 <= j < |init| => [init[j]]);
    }
  }

  /** Groups that write every slot of `t` with `t`'s character there fill an empty array with `t`. */
  lemma FillSpells(gs: seq<Group>, key: Num, t: Text)
    requires |gs| == |t| && PlacesInto(gs, key, t)
    requires forall j :: 0 <= j < |t| ==> Hit(gs, key, j)
    ensures forall i :: 0 <= i < |gs| ==> |gs[i]| == 5
    ensures Join(Fill(EmptySlots(|gs|), gs, key)) == t
  {
    var empty := EmptySlots(|gs|);
    FillCharacterized(empty, gs, key, t);
    var filled := Fill(empty, gs, key);
    var singles := seq(|t|, j requires 0 <= j < |t| => [t[j]]);
    forall j | 0 <= j < |t|
      ensures filled[j] == singles[j]
    {
    }
    assert filled == singles;
    JoinSingletons(t);
  }

  // ------------------------------------------------------------ the round trip

  /**
   * `chunks` spells `t` with `key`: one five-digit chunk per character, whose
   * first three digits read as the code plus the key and last two as the
   * position plus the key.
   */
  ghost predicate Encodes(chunks: seq<string>, t: Text, key: nat)
  {
    |chunks| == |t|
    && forall j :: 0 <= j < |t| ==>
      |chunks[j]| == 5 && AllDigits(chunks[j])
      && DigitsValue(chunks[j][..3]) == t[j] + key && DigitsValue(chunks[j][3..]) == j + key
  }

  /** When the fields fit, the chunks of a plaintext spell it. */
  lemma ChunksEncode(t: Text, key: nat)
    requires Fits(t, key)
    ensures Encodes(Chunks(t, key), t, key)
  {
    forall j | 0 <= j < |t|
      ensures t[j] + key < 1000 && j + key < 100
    {
    }
  }

  /** A reordering of the chunks holds the same chunks, as many, all five characters long. */
  lemma ReorderedChunks(t: Text, key: nat, chunks: seq<string>, parts: seq<string>)
    requires Encodes(chunks, t, key) && multiset(parts) == multiset(chunks)
    ensures forall c :: c in parts <==> c in chunks
    ensures |parts| == |t|
    ensures forall c :: c in parts ==> |c| == 5
  {
    forall c ensures c in parts <==> c in chunks {
      assert c in parts <==> c in multiset(parts);
      assert c in chunks <==> c in multiset(chunks);
    }
    assert |multiset(parts)| == |multiset(chunks)|;
  }

  /** The group cut from reordered chunk i writes, in range, the character `t` has at its slot. */
  lemma GroupPlaces(t: Text, key: nat, chunks: seq<string>, parts: seq<string>, i: nat)
    requires Encodes(chunks, t, key) && multiset(parts) == multiset(chunks)
    requires i < |parts|
    ensures |Somes(parts[i])| == 5
    ensures var s := SlotOf(Somes(parts[i]), Val(key));
      s.Val? && 0 <= s.v < |t| && CodeOf(Somes(parts[i]), Val(key)) == t[s.v]
  {
    ReorderedChunks(t, key, chunks, parts);
    assert parts[i] in chunks;
    var j :| 0 <= j < |chunks| && chunks[j] == parts[i];
    ChunkPlacement(parts[i], t[j], j, key);
  }

  /** Some reordered chunk writes slot j. */
  lemma PositionHit(t: Text, key: nat, chunks: seq<string>, parts: seq<string>, j: nat)
    requires Encodes(chunks, t, key) && multiset(parts) == multiset(chunks)
    requires j < |t|
    ensures exists i :: 0 <= i < |parts| && |parts[i]| == 5 && SlotOf(Somes(parts[i]), Val(key)) == Val(j)
  {
    ReorderedChunks(t, key, chunks, parts);
    assert chunks[j] in parts;
    var i :| 0 <= i < |parts| && parts[i] == chunks[j];
    ChunkPlacement(chunks[j], t[j], j, key);
  }

  /** The groups of the reordered chunks each write the character of the chunk's position, and every position is written. */
  lemma ChunkGroupsPlace(t: Text, key: nat, chunks: seq<string>, parts: seq<string>)
    requires Encodes(chunks, t, key) && multiset(parts) == multiset(chunks)
    ensures |Groups(Join(parts))| == |t|
    ensures PlacesInto(Groups(Join(parts)), Val(key), t)
    ensures forall j :: 0 <= j < |t| ==> Hit(Groups(Join(parts)), Val(key), j)
  {
    ReorderedChunks(t, key, chunks, parts);
    GroupsOfJoin(parts);
    var keys := Groups(Join(parts));
    assert forall i :: 0 <= i < |keys| ==> keys[i] == Somes(parts[i]);
    forall g | g in keys
      ensures |g| == 5 && SlotOf(g, Val(key)).Val? && 0 <= SlotOf(g, Val(key)).v < |t|
        && CodeOf(g, Val(key)) == t[SlotOf(g, Val(key)).v]
    {
      var i :| 0 <= i < |keys| && keys[i] == g;
      GroupPlaces(t, key, chunks, parts, i);
    }
    forall j | 0 <= j < |t|
      ensures Hit(keys, Val(key), j)
    {
      PositionHit(t, key, chunks, parts, j);
      var i :| 0 <= i < |parts| && |parts[i]| == 5 && SlotOf(Somes(parts[i]), Val(key)) == Val(j);
      assert keys[i] in keys;
    }
  }

  /** Reordered chunks that spell a plaintext, decrypted with the right key, give the plaintext back. */
  lemma PayloadDecrypts(t: Text, key: nat, chunks: seq<string>, parts: seq<string>)
    requires Encodes(chunks, t, key) && multiset(parts) == multiset(chunks)
    ensures var keys := Groups(Join(parts));
      (forall i :: 0 <= i < |keys| ==> |keys[i]| == 5)
      && Join(Fill(EmptySlots(|keys|), keys, Val(key))) == t
  {
    ChunkGroupsPlace(t, key, chunks, parts);
    FillSpells(Groups(Join(parts)), Val(key), t);
  }

  /**
   * Round trip: when every code plus the key fits three digits, every
   * position plus the key fits two, and the key does not exceed the code of
   * the year's first digit (so the year segment carries no '-'), decrypting
   * the token gives back the plaintext, whatever the shuffle drew.
   */
  lemma RoundTrip(t: Text, year: nat, choices: seq<nat>)
    requires |t| >= 2 && year >= 1 && ValidChoices(choices, |t|)
    requires Fits(t, KeyOf(t, year)) && KeyOf(t, year) <= LeadCode(year)
    ensures Decrypted(Encrypt(t, year, choices)) == Some(t)
  {
    var key := KeyOf(t, year);
    var chunks := Chunks(t, key);
    var parts := Shuffled(chunks, choices);
    var payload := Join(parts);
    var y, k := YearSegment(year, key), Dec(key);
    assert Encrypt(t, year, choices) == payload + Suffix(year, key);
    assert Suffix(year, key) == [':'] + (y + k) + ['-'] + Dec(|k|);
    ChunksEncode(t, key);
    PayloadShape(parts, chunks);
    DecryptedOfShape(payload, y, k);
    PayloadDecrypts(t, key, chunks, parts);
  }

  /**
   * A token made of a digit payload, ':', a digit year segment, the key's
   * digits, '-' and the number of key digits decrypts to the payload's groups
   * placed with that key.
   */
  lemma DecryptedOfShape(payload: string, y: string, k: string)
    requires AllDigits(payload) && AllDigits(y) && AllDigits(k)
    ensures var keys := Groups(payload);
      Decrypted(payload + ([':'] + (y + k) + ['-'] + Dec(|k|)))
      == Some(Join(Fill(EmptySlots(|keys|), keys, Val(DigitsValue(k)))))
  {
    var l := Dec(|k|);
    assert AllDigits(y + k);
    DecryptedOfSplit(payload, y + k, l);
    DecimalNumber(|k|);
    KeyRecovered(y, k);
    DecodedWithKey(payload, y + k, Val(|k|), Val(DigitsValue(k)));
  }

  /** `Number` reads a decimal spelling back as its number. */
  lemma DecimalNumber(n: nat)
    ensures StringNumber(Dec(n)) == Val(n)
  {
  }

  /** Decoding depends on the key text and key length only through the key they read as. */
  lemma DecodedWithKey(payload: string, keyText: string, keyLength: Num, key: Num)
    requires KeySum(Reverse(keyText), Rounds(keyLength)) == key
    ensures var keys := Groups(payload);
      Decoded(payload, keyText, keyLength) == Join(Fill(EmptySlots(|keys|), keys, key))
  {
  }

  /** A token of that shape decrypts to its payload read with the key text and key length it carries. */
  lemma DecryptedOfSplit(payload: string, yk: string, l: string)
    requires AllDigits(payload) && AllDigits(yk) && AllDigits(l)
    ensures Decrypted(payload + ([':'] + yk + ['-'] + l)) == Some(Decoded(payload, yk, StringNumber(l)))
  {
    SplitToken(payload, yk, l);
  }

  /** The token splits at its only '-' into head and key length, and the head at its only ':' into payload and suffix. */
  lemma SplitToken(payload: string, yk: string, l: string)
    requires AllDigits(payload) && AllDigits(yk) && AllDigits(l)
    ensures Split(payload + ([':'] + yk + ['-'] + l), '-') == [payload + [':'] + yk, l]
    ensures Split(payload + [':'] + yk, ':') == [payload, yk]
  {
    var head := payload + [':'] + yk;
    Regroup(payload, [':'], yk, ['-'], l);
    assert '-' !in head by {
      forall i | 0 <= i < |head| ensures head[i] != '-' {
        if i > |payload| {
          assert head[i] == yk[i - |payload| - 1];
        }
      }
    }
    SplitFirst(head, l, '-');
    SplitNoSep(l, '-');
    SplitFirst(payload, yk, ':');
    SplitNoSep(yk, ':');
  }

  lemma Regroup<T>(a: seq<T>, b: seq<T>, c: seq<T>, d: seq<T>, e: seq<T>)
    ensures a + (b + c + d + e) == a + b + c + d + e
  {
  }

  /**
   * In the years 2000 to 2999 the year's first digit is '2' (code 50), so the
   * round trip holds whenever the key is at most 50.
   */
  lemma RoundTripThisMillennium(t: Text, year: nat, choices: seq<nat>)
    requires |t| >= 2 && 2000 <= year <= 2999 && ValidChoices(choices, |t|)
    requires Fits(t, KeyOf(t, year)) && KeyOf(t, year) <= 50
    ensures Decrypted(Encrypt(t, year, choices)) == Some(t)
  {
    LeadOfTens(year);
    LeadOfTens(year / 10);
    LeadOfTens(year / 100);
    assert year / 10 / 10 / 10 == 2;
    RoundTrip(t, year, choices);
  }

  /** A number of two digits or more is spelled with the same first digit as its tenth. */
  lemma LeadOfTens(n: nat)
    requires n >= 10
    ensures Dec(n)[0] == Dec(n / 10)[0]
  {
  }

  /** The shuffle draws do not matter: two tokens of the same plaintext in the same year decrypt alike. */
  lemma ShuffleInvisible(t: Text, year: nat, c1: seq<nat>, c2: seq<nat>)
    requires |t| >= 2 && year >= 1 && ValidChoices(c1, |t|) && ValidChoices(c2, |t|)
    requires Fits(t, KeyOf(t, year)) && KeyOf(t, year) <= LeadCode(year)
    ensures Decrypted(Encrypt(t, year, c1)) == Decrypted(Encrypt(t, year, c2))
  {
    RoundTrip(t, year, c1);
    RoundTrip(t, year, c2);
  }
}
