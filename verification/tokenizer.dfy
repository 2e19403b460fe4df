/**
 * The token codec of tokenizer.js.
 *
 * `Encrypt` turns a plaintext into a token
 *   <payload> ":" <year segment> <key digits> "-" <number of key digits>
 * where the payload is one 5-digit chunk per character (the code plus the key
 * in three digits, the position plus the key in two), in shuffled order.
 * `Decrypt` reads the key back from the end of the suffix, cuts the payload
 * into groups of five and puts each recovered character at its recovered
 * position. The clock and the random source are parameters: the calendar
 * `year`, and the indices the shuffle draws.
 */
module Tokenizer {
  import opened Wrappers
  import opened JsText

  /** A plaintext, one code unit per character. */
  type Text = seq<CodeUnit>

  // ---------------------------------------------------------------- encrypt

  /**
   * `Math.floor((code0 * code1 + 16) / year)`: the largest k whose multiple
   * of the year does not exceed code0 * code1 + 16.
   */
  function Key(c0: CodeUnit, c1: CodeUnit, year: nat): (k: nat)
    requires year >= 1
    ensures k * year <= c0 * c1 + 16 < (k + 1) * year
  {
    var n := c0 * c1 + 16;
    FloorDiv(n, year);
    n / year
  }

  lemma FloorDiv(n: nat, d: nat)
    requires d >= 1
    ensures 0 <= n / d
    ensures (n / d) * d <= n < (n / d + 1) * d
  {
    var q, r := n / d, n % d;
    EuclidStep(n, d, q, r);
  }

  lemma EuclidStep(n: int, d: int, q: int, r: int)
    requires n == q * d + r && 0 <= r < d
    ensures q * d <= n < (q + 1) * d
  {
    assert (q + 1) * d == q * d + d;
  }

  /** The key of a plaintext: it depends on its first two characters and the year only. */
  function KeyOf(t: Text, year: nat): nat
    requires |t| >= 2 && year >= 1
  {
    Key(t[0], t[1], year)
  }

  /**
   * The chunk of the character with code `code` at position `i`: the code
   * plus the key padded to three digits, then the position plus the key
   * padded to two. It is always digits; when both sums fit their fields it
   * is exactly five digits and its fields read back as the two sums.
   */
  function Chunk(code: CodeUnit, i: nat, key: nat): (c: string)
    ensures AllDigits(c)
    ensures code + key < 1000 && i + key < 100 ==>
      |c| == 5 && DigitsValue(c[..3]) == code + key && DigitsValue(c[3..]) == i + key
  {
    var a := PadStart(Dec(code + key), 3);
    var b := PadStart(Dec(i + key), 2);
    ChunkFields(code + key, i + key, a, b);
    a + b
  }

  /** The two padded fields of a chunk, when they fit, are three and two digits wide and read back as their numbers. */
  lemma ChunkFields(x: nat, y: nat, a: string, b: string)
    requires a == PadStart(Dec(x), 3) && b == PadStart(Dec(y), 2)
    ensures AllDigits(a + b)
    ensures x < 1000 && y < 100 ==>
      |a + b| == 5 && DigitsValue((a + b)[..3]) == x && DigitsValue((a + b)[3..]) == y
  {
    if x < 1000 && y < 100 {
      assert Pow10(3) == 1000 && Pow10(2) == 100;
      PaddedField(x, 3);
      PaddedField(y, 2);
      assert (a + b)[..3] == a && (a + b)[3..] == b;
    }
  }

  /** A number below 10^w, padded to w, is exactly w digits that read as the number. */
  lemma PaddedField(x: nat, w: nat)
    requires 1 <= w && x < Pow10(w)
    ensures |PadStart(Dec(x), w)| == w && DigitsValue(PadStart(Dec(x), w)) == x
  {
    DecWidth(x, w);
  }

  /** The chunks of a plaintext, in character order (before the shuffle). */
  function Chunks(t: Text, key: nat): (cs: seq<string>)
    ensures |cs| == |t|
    ensures forall i :: 0 <= i < |t| ==> cs[i] == Chunk(t[i], i, key)
  {
    seq(|t|, i requires 0 <= i < |t| => Chunk(t[i], i, key))
  }

  /** Every code plus the key fits three digits and every position plus the key fits two. */
  predicate Fits(t: Text, key: nat)
  {
    forall i :: 0 <= i < |t| ==> t[i] + key < 1000 && i + key < 100
  }

  /** `year.toString()` digit by digit: the first digit's code minus the key, the others' codes plus the key, unpadded. */
  function RaisedDigits(ds: string, key: nat): (r: string)
    ensures AllDigits(r)
  {
    if ds == [] then [] else Dec(ds[0] as int + key) + RaisedDigits(ds[1..], key)
  }

  /** The code of the first digit of the year, '2' (50) in this millennium. */
  function LeadCode(year: nat): nat
  {
    Dec(year)[0] as int
  }

  /**
   * The year segment. It carries a '-' exactly when the key exceeds the code
   * of the year's first digit; otherwise it is all digits.
   */
  function YearSegment(year: nat, key: nat): (r: string)
    ensures '-' in r <==> key > LeadCode(year)
    ensures key <= LeadCode(year) ==> AllDigits(r)
  {
    var y := Dec(year);
    var head := IntStr(y[0] as int - key);
    var r := head + RaisedDigits(y[1..], key);
    assert r[0] == head[0];
    r
  }

  /** What follows the payload: ':', the year segment, the key's digits, '-' and the number of key digits. */
  function Suffix(year: nat, key: nat): (r: string)
    requires year >= 1
    ensures |r| >= 1 && r[0] == ':'
  {
    ":" + (YearSegment(year, key) + Dec(key)) + "-" + Dec(|Dec(key)|)
  }

  /**
   * The token of `t` when the clock reads `year` and the shuffle draws
   * `choices`. When the fields fit, the payload is 5 digits per character and
   * is followed by ':'.
   */
  function Encrypt(t: Text, year: nat, choices: seq<nat>): (token: string)
    requires |t| >= 2 && year >= 1 && ValidChoices(choices, |t|)
    ensures Fits(t, KeyOf(t, year)) ==>
      |token| > 5 * |t| && AllDigits(token[..5 * |t|]) && token[5 * |t|] == ':'
  {
    var key := KeyOf(t, year);
    var parts := Shuffled(Chunks(t, key), choices);
    PayloadOfFits(t, key, parts);
    Join(parts) + Suffix(year, key)
  }

  /** When the fields fit, the shuffled chunks join into 5 digits per character, followed by the suffix. */
  lemma PayloadOfFits(t: Text, key: nat, parts: seq<string>)
    requires multiset(parts) == multiset(Chunks(t, key))
    ensures forall suffix: string :: Fits(t, key) && |suffix| >= 1 && suffix[0] == ':' ==>
      var token := Join(parts) + suffix;
      |token| > 5 * |t| && AllDigits(token[..5 * |t|]) && token[5 * |t|] == ':'
  {
    if Fits(t, key) {
      PayloadShape(parts, Chunks(t, key));
      var payload := Join(parts);
      assert |parts| == |t| by {
        assert |multiset(parts)| == |multiset(Chunks(t, key))|;
      }
      forall suffix: string | |suffix| >= 1 && suffix[0] == ':'
        ensures var token := payload + suffix;
          |token| > 5 * |t| && AllDigits(token[..5 * |t|]) && token[5 * |t|] == ':'
      {
        assert (payload + suffix)[..|payload|] == payload;
      }
    }
  }

  /** Chunks of five digits join into a payload of five digits per chunk. */
  lemma {:induction false} PayloadShape(parts: seq<string>, chunks: seq<string>)
    requires multiset(parts) == multiset(chunks)
    requires forall c :: c in chunks ==> |c| == 5 && AllDigits(c)
    ensures |Join(parts)| == 5 * |parts| && AllDigits(Join(parts))
  {
    assert forall c :: c in parts ==> c in multiset(parts);
    JoinOfFives(parts);
  }

  lemma {:induction false} JoinOfFives(parts: seq<string>)
    requires forall c :: c in parts ==> |c| == 5 && AllDigits(c)
    ensures |Join(parts)| == 5 * |parts| && AllDigits(Join(parts))
  {
    if parts != [] {
      var init := parts[..|parts| - 1];
      assert forall c :: c in init ==> c in parts;
      JoinOfFives(init);
      assert parts[|parts| - 1] in parts;
    }
  }

  // ---------------------------------------------------------------- shuffle

  /**
   * The indices `Math.floor(Math.random() * m)` draws: round j of the loop
   * (m = n - j) draws an index below n - j.
   */
  predicate ValidChoices(choices: seq<nat>, n: nat)
  {
    |choices| == n && forall j :: 0 <= j < n ==> choices[j] < n - j
  }

  function Swap<T>(s: seq<T>, i: nat, j: nat): (r: seq<T>)
    requires i < |s| && j < |s|
    ensures |r| == |s| && multiset(r) == multiset(s)
  {
    s[i := s[j]][j := s[i]]
  }

  /**
   * The last `m` rounds of the Fisher-Yates loop, starting from `s`: the
   * round with counter m swaps the element at m - 1 with the one at the drawn
   * index. The result is a permutation of `s`.
   */
  function ShuffleFrom<T>(s: seq<T>, choices: seq<nat>, m: nat): (r: seq<T>)
    requires m <= |s| && ValidChoices(choices, |s|)
    ensures |r| == |s| && multiset(r) == multiset(s)
    decreases m
  {
    if m == 0 then s
    else ShuffleFrom(Swap(s, m - 1, choices[|s| - m]), choices, m - 1)
  }

  /** The outcome of `shuffle` for the given draws: a permutation of `s`. */
  function Shuffled<T>(s: seq<T>, choices: seq<nat>): (r: seq<T>)
    requires ValidChoices(choices, |s|)
    ensures |r| == |s| && multiset(r) == multiset(s)
  {
    ShuffleFrom(s, choices, |s|)
  }

  /** `shuffle(array)`: Fisher-Yates in place, counting `m` down from the length. */
  method Shuffle<T>(a: array<T>, choices: seq<nat>)
    requires ValidChoices(choices, a.Length)
    modifies a
    ensures a[..] == Shuffled(old(a[..]), choices)
    ensures multiset(a[..]) == multiset(old(a[..]))
  {
    var m := a.Length;
    while m != 0
      invariant 0 <= m <= a.Length
      invariant ShuffleFrom(a[..], choices, m) == Shuffled(old(a[..]), choices)
    {
      ghost var before := a[..];
      var i := choices[a.Length - m];
      m := m - 1;
      var t := a[m];
      a[m] := a[i];
      a[i] := t;
      assert a[..] == Swap(before, m, i);
    }
  }

  // ---------------------------------------------------------------- decrypt

  /** Element `k` of the character array of `s`, or `undefined` past its end. */
  function At(s: string, k: nat): Option<char>
  {
    if k < |s| then Some(s[k]) else None
  }

  /** `s.splice(0, k)` repeated: what is left of `s` after `k` elements came off the front. */
  function DropN(s: string, k: nat): (r: string)
    ensures |r| == if k < |s| then |s| - k else 0
  {
    if k < |s| then s[k..] else []
  }

  /**
   * `Number` applied to the one-element array that `splice(0, 1)` returns:
   * a digit reads as its value, `undefined` (or an empty array) and white
   * space as 0, anything else as NaN. `SlotNumberIsNumber` shows this is
   * `Number` of the element's string.
   */
  function SlotNumber(x: Option<char>): (r: Num)
    ensures r.Val? ==> 0 <= r.v <= 9
  {
    if x.None? then Val(0)
    else if IsDigit(x.value) then Val(DigitValue(x.value))
    else if IsJsSpace(x.value) then Val(0)
    else NaN
  }

  /** Reading one element agrees with `Number` on its one-character (or empty) string. */
  lemma SlotNumberIsNumber(x: Option<char>)
    ensures SlotNumber(x) == StringNumber(if x.Some? then [x.value] else [])
  {
    if x.Some? {
      var s := [x.value];
      assert s[1..] == [] && s[..0] == [];
      if IsJsSpace(x.value) {
        assert TrimStart(s) == [];
      } else if IsDigit(x.value) {
        assert DigitsValue(s) == DigitValue(x.value);
      }
    }
  }

  /** The number of rounds of `while (i < keyLength)`: none when the length is NaN. */
  function Rounds(keyLength: Num): nat
  {
    if keyLength.Val? && keyLength.v > 0 then keyLength.v else 0
  }

  /**
   * The key after `rounds` rounds of the key loop over the reversed suffix
   * `rev`: round i adds the number read from element i times 10^i.
   */
  function KeySum(rev: string, rounds: nat): (r: Num)
    ensures r.Val? ==> 0 <= r.v < Pow10(rounds)
  {
    if rounds == 0 then Val(0)
    else
      var prev, d := KeySum(rev, rounds - 1), SlotNumber(At(rev, rounds - 1));
      KeyBound(prev, d, Pow10(rounds - 1));
      Plus(prev, Times(d, Pow10(rounds - 1)))
  }

  /** One more digit keeps the key below the next power of ten. */
  lemma KeyBound(prev: Num, d: Num, p: nat)
    requires prev.Val? ==> 0 <= prev.v < p
    requires d.Val? ==> 0 <= d.v <= 9
    ensures var r := Plus(prev, Times(d, p)); r.Val? ==> 0 <= r.v < 10 * p
  {
    if prev.Val? && d.Val? {
      assert d.v * p <= 9 * p;
    }
  }

  /** Five elements taken off the front one by one; `undefined` past the end. */
  type Group = seq<Option<char>>

  function GroupOf(p: string): (g: Group)
    ensures |g| == 5 && forall k :: 0 <= k < 5 ==> g[k] == At(p, k)
  {
    [At(p, 0), At(p, 1), At(p, 2), At(p, 3), At(p, 4)]
  }

  /**
   * The groups `decrypt` cuts the payload into: ceil(|p| / 5) of them, five
   * elements each, group i holding elements 5i .. 5i + 4 of the payload.
   */
  function Groups(p: string): (gs: seq<Group>)
    ensures |gs| == (|p| + 4) / 5
    ensures forall i :: 0 <= i < |gs| ==> |gs[i]| == 5
    decreases |p|
  {
    if p == [] then [] else [GroupOf(p)] + Groups(DropN(p, 5))
  }

  /** Group i holds elements 5i .. 5i + 4 of the payload, `undefined` past its end. */
  lemma {:induction false} GroupsAt(p: string, i: nat, k: nat)
    requires i < |Groups(p)| && k < 5
    ensures Groups(p)[i][k] == At(p, 5 * i + k)
    decreases |p|
  {
    if i > 0 {
      GroupsAt(DropN(p, 5), i - 1, k);
    }
  }

  /**
   * The first `t` rounds of `while (i--) n += (+k.splice(0, 1)) * 10 ** i`
   * over a field `ds`: element j weighs 10^(|ds| - 1 - j).
   */
  function Partial(ds: seq<Option<char>>, t: nat): Num
    requires t <= |ds|
  {
    if t == 0 then Val(0)
    else Plus(Partial(ds, t - 1), Times(SlotNumber(ds[t - 1]), Pow10(|ds| - t)))
  }

  /** The number a whole field reads as. */
  function Field(ds: seq<Option<char>>): Num
  {
    Partial(ds, |ds|)
  }

  /** `String.fromCharCode(ascii - key)` for a group. */
  function CodeOf(g: Group, key: Num): CodeUnit
    requires |g| == 5
  {
    FromCharCode(Minus(Field(g[..3]), key))
  }

  /** `index - key` for a group: the slot its character is written to. */
  function SlotOf(g: Group, key: Num): Num
    requires |g| == 5
  {
    Minus(Field(g[3..]), key)
  }

  /** `Array(n).fill("")`. */
  function EmptySlots(n: nat): (r: seq<seq<CodeUnit>>)
    ensures |r| == n && forall j :: 0 <= j < n ==> r[j] == []
  {
    seq(n, _ => [])
  }

  /**
   * `values[slot] = String.fromCharCode(c)` on a JavaScript array: a NaN or
   * negative slot names a property that `join` ignores; a slot past the end
   * grows the array, and `join` reads the holes as "".
   */
  function Place(values: seq<seq<CodeUnit>>, slot: Num, c: CodeUnit): seq<seq<CodeUnit>>
  {
    if !slot.Val? || slot.v < 0 then values
    else if slot.v < |values| then values[slot.v := [c]]
    else values + EmptySlots(slot.v - |values|) + [[c]]
  }

  /**
   * The effect of one write: an ignored slot changes nothing; otherwise the
   * slot holds the character, every other existing slot is kept and any new
   * slot before it is a hole.
   */
  lemma PlaceEffect(values: seq<seq<CodeUnit>>, slot: Num, c: CodeUnit)
    ensures !slot.Val? || slot.v < 0 ==> Place(values, slot, c) == values
    ensures slot.Val? && slot.v >= 0 ==>
      var r := Place(values, slot, c);
      |r| == (if slot.v < |values| then |values| else slot.v + 1)
      && r[slot.v] == [c]
      && (forall j :: 0 <= j < |r| && j != slot.v ==> r[j] == if j < |values| then values[j] else [])
  {
  }

  /** Every slot holds at most one character after the writes, and the array never shrinks. */
  lemma {:induction false} FillSlots(values: seq<seq<CodeUnit>>, gs: seq<Group>, key: Num)
    requires forall i :: 0 <= i < |gs| ==> |gs[i]| == 5
    requires forall j :: 0 <= j < |values| ==> |values[j]| <= 1
    ensures var r := Fill(values, gs, key);
      |r| >= |values| && forall j :: 0 <= j < |r| ==> |r[j]| <= 1
    decreases |gs|
  {
    if gs != [] {
      var v' := Place(values, SlotOf(gs[0], key), CodeOf(gs[0], key));
      PlaceEffect(values, SlotOf(gs[0], key), CodeOf(gs[0], key));
      FillSlots(v', gs[1..], key);
    }
  }

  /** The write of every group, in order. */
  function Fill(values: seq<seq<CodeUnit>>, gs: seq<Group>, key: Num): seq<seq<CodeUnit>>
    requires forall i :: 0 <= i < |gs| ==> |gs[i]| == 5
    decreases |gs|
  {
    if gs == [] then values
    else Fill(Place(values, SlotOf(gs[0], key), CodeOf(gs[0], key)), gs[1..], key)
  }

  /**
   * What `decrypt(token)` returns; None when it throws, which happens exactly
   * when the part before the first '-' has no ':' (`mainTokens[1]` is then
   * undefined).
   */
  function Decrypted(token: string): (r: Option<Text>)
    ensures r.None? <==> ':' !in Split(token, '-')[0]
  {
    var tokens := Split(token, '-');
    var keyLength := StringNumber(tokens[|tokens| - 1]);
    var mainTokens := Split(tokens[0], ':');
    if |mainTokens| < 2 then None
    else Some(Decoded(mainTokens[0], mainTokens[1], keyLength))
  }

  /**
   * The plaintext spelled by `payload` once the key is read from the
   * reversed key text: the groups' writes into `Array(groups).fill("")`,
   * joined.
   */
  function Decoded(payload: string, keyText: string, keyLength: Num): Text
  {
    var key := KeySum(Reverse(keyText), Rounds(keyLength));
    var keys := Groups(payload);
    Join(Fill(EmptySlots(|keys|), keys, key))
  }

  /** `decrypt(token)`: split off the key length and the suffix, then run the three loops below. */
  method Decrypt(token: string) returns (r: Option<Text>)
    ensures r == Decrypted(token)
  {
    var tokens := Split(token, '-');
    var keyLength := StringNumber(tokens[|tokens| - 1]);
    var mainTokens := Split(tokens[0], ':');
    if |mainTokens| < 2 {
      return None;
    }
    var key := ReadKey(Reverse(mainTokens[1]), keyLength);
    var keys := CutGroups(mainTokens[0]);
    var values := FillValues(keys, key);
    return Some(Join(values));
  }

  /** The key loop: `key += Number(temp.splice(0, 1)) * 10 ** i` while `i < keyLength`. */
  method ReadKey(rev: string, keyLength: Num) returns (key: Num)
    ensures key == KeySum(rev, Rounds(keyLength))
  {
    var temp := rev;
    key := Val(0);
    var i := 0;
    while Below(i, keyLength)
      invariant 0 <= i <= Rounds(keyLength)
      invariant key == KeySum(rev, i)
      invariant temp == DropN(rev, i)
      decreases Rounds(keyLength) - i
    {
      TakeOne(rev, i);
      key := Plus(key, Times(SlotNumber(At(temp, 0)), Pow10(i)));
      temp := DropN(temp, 1);
      i := i + 1;
    }
  }

  /** The grouping loop: `temp1.splice(0, 1)[0]` five times per group while `i < payload.length / 5`. */
  method CutGroups(payload: string) returns (keys: seq<Group>)
    ensures keys == Groups(payload)
  {
    keys := [];
    var temp1 := payload;
    var i := 0;
    while 5 * i < |payload|
      invariant temp1 == DropN(payload, 5 * i)
      invariant keys + Groups(temp1) == Groups(payload)
      decreases |payload| - 5 * i
    {
      var group;
      group, temp1 := TakeGroup(temp1);
      CutStep(payload, keys, i, group);
      keys := keys + [group];
      i := i + 1;
    }
  }

  /** The inner loop of the grouping: `temp.push(temp1.splice(0, 1)[0])` five times. */
  method TakeGroup(temp1: string) returns (group: Group, rest: string)
    ensures |group| == 5 && forall m :: 0 <= m < 5 ==> group[m] == At(temp1, m)
    ensures rest == DropN(temp1, 5)
  {
    group := [];
    rest := temp1;
    var k := 0;
    while k < 5
      invariant 0 <= k <= 5
      invariant |group| == k && forall m :: 0 <= m < k ==> group[m] == At(temp1, m)
      invariant rest == DropN(temp1, k)
    {
      TakeOne(temp1, k);
      group := group + [At(rest, 0)];
      rest := DropN(rest, 1);
      k := k + 1;
    }
  }

  /** One round of the grouping loop keeps the groups cut so far followed by the groups of the rest equal to all groups. */
  lemma CutStep(payload: string, keys: seq<Group>, i: nat, group: Group)
    requires 5 * i < |payload| && keys + Groups(DropN(payload, 5 * i)) == Groups(payload)
    requires |group| == 5 && forall m :: 0 <= m < 5 ==> group[m] == At(DropN(payload, 5 * i), m)
    ensures DropN(DropN(payload, 5 * i), 5) == DropN(payload, 5 * (i + 1))
    ensures (keys + [group]) + Groups(DropN(payload, 5 * (i + 1))) == Groups(payload)
  {
    var start := DropN(payload, 5 * i);
    DropTwice(payload, 5 * i, 5);
    assert group == GroupOf(start);
    assert Groups(start) == [group] + Groups(DropN(start, 5));
  }

  /** Taking one more element off the front: the element at k, then what is left after k + 1. */
  lemma TakeOne(s: string, k: nat)
    ensures At(DropN(s, k), 0) == At(s, k)
    ensures DropN(DropN(s, k), 1) == DropN(s, k + 1)
  {
  }

  lemma DropTwice(s: string, a: nat, b: nat)
    ensures DropN(DropN(s, a), b) == DropN(s, a + b)
  {
  }

  /** `while (i--) n += (+k.splice(0, 1)) * 10 ** i`, starting from i = |field|. */
  method ReadField(field: seq<Option<char>>) returns (n: Num)
    ensures n == Field(field)
  {
    var k := field;
    n := Val(0);
    var i := |field|;
    while i != 0
      invariant 0 <= i <= |field|
      invariant n == Partial(field, |field| - i)
      invariant k == field[|field| - i..]
    {
      i := i - 1;
      n := Plus(n, Times(SlotNumber(k[0]), Pow10(i)));
      k := k[1..];
    }
  }

  /** The placing loop: for each group, `values[index - key] = String.fromCharCode(ascii - key)`. */
  method FillValues(keys: seq<Group>, key: Num) returns (values: seq<seq<CodeUnit>>)
    requires forall i :: 0 <= i < |keys| ==> |keys[i]| == 5
    ensures values == Fill(EmptySlots(|keys|), keys, key)
  {
    values := EmptySlots(|keys|);
    var idx := 0;
    while idx < |keys|
      invariant 0 <= idx <= |keys|
      invariant Fill(values, keys[idx..], key) == Fill(EmptySlots(|keys|), keys, key)
    {
      var k := keys[idx];
      var ascii := ReadField(k[..3]);
      var index := ReadField(k[3..]);
      assert keys[idx..][1..] == keys[idx + 1..];
      values := Place(values, Minus(index, key), FromCharCode(Minus(ascii, key)));
      idx := idx + 1;
    }
  }
}
