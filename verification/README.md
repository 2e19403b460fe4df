# TechnophilesAPI: token codec, username index and account rules in Dafny

This project models the logic of the TechnophilesAPI back end that does not
depend on the HTTP layer or the database.

- **The token codec of `tokenizer.js`** (modules `JsText`, `Tokenizer`, `TokenizerRoundTrip`).
  - `encrypt` derives a key from the first two character codes and the year.
  - It writes every character as a five-digit chunk: its code plus the key, zero-padded to three digits, then its position plus the key, zero-padded to two.
  - It shuffles the chunks with Fisher–Yates and appends `":" + yearSegment + key + "-" + digitCount(key)`.
  - `decrypt` reads the key back from the tail of the suffix and cuts the payload into five-character groups. It writes each group's character into the slot its position field names.
  - The JavaScript primitives these steps rely on are modelled in `JsText`: `toString`, `padStart`, `split`, `join`, `reverse`, `Number(...)` on strings and `String.fromCharCode`.
  - The clock's year and the random draws of the shuffle are parameters.
- **The username index of `helpers.js`** (module `Helpers`).
  - It is a table from each letter `a`..`z` to the usernames that start with it.
  - `updateUsers` builds it from the list of user ids, which is a parameter here. `addNewUser` and `updateOldUsername` then update it in place.
  - A name whose first character has no bucket makes the JavaScript throw a TypeError. The methods report that with `ok == false` (or `None`) and state how far the table had changed before the throw.
- **Three rules of `db.js`** (module `Db`).
  - The e-mail pattern `^[a-z][a-z0-9_.-]+@[a-z0-9-]+\.[a-z]+` is written as a scanning matcher. It is proved equal to a direct reading of the pattern.
  - The first/last name merge of `updateName`.
  - The username lookup `usernameAlreadyExists`.

Main results:
- `TokenizerRoundTrip.RoundTrip`: `decrypt(encrypt(t)) == t` for every shuffle outcome, provided:
  - the text has at least two characters;
  - every code plus the key stays below 1000;
  - every position plus the key stays below 100;
  - the key does not exceed the code of the year's first digit. Otherwise the year segment carries a '-' that `decrypt` splits on.
- `TokenizerRoundTrip.RoundTripThisMillennium`: the same for the years 2000–2999, where the last condition is `key <= 50`.
- `TokenizerRoundTrip.ShuffleInvisible`: the decoded text does not depend on the shuffle.
- `Helpers.GroupedMembership` and `Helpers.GroupedTotal`: the grouping loop puts every id, and only those, in the bucket of its first letter, and the buckets together hold as many names as there are ids. `Helpers.BucketAppend` states that each bucket keeps input order.
- `Helpers.RenameKeepsSize`: renaming a present user keeps the number of names.
- `Helpers.RemovedOldAbsent`: renaming a user that is not in its bucket makes `indexOf` return -1, and `splice(-1, 1)` then drops the last name of the bucket, which belongs to someone else. The model keeps this behaviour as written.

Numbers are unbounded integers. The model represents only the integers and NaN among JavaScript numbers (`JsText.Num`); the fractional, signed and infinite values `Number(...)` can also produce are listed under "## Left out". A plaintext character is a UTF-16 code unit (`JsText.CodeUnit`); a token is a Dafny `string`, one element per character (see "## Left out" for characters outside the Basic Multilingual Plane).

## Model

| member | source | states |
|---|---|---|
| JsText.Dec | tokenizer.js:10 | `n.toString()` of a non-negative integer is a non-empty digit string with value n, and it starts with '0' only for 0 |
| JsText.IntStr | tokenizer.js:11 | `x.toString()` of any integer: the decimal spelling, with a leading '-' for a negative value (the first year digit minus the key) |
| JsText.PadStart | tokenizer.js:10 | `padStart(w, "0")` has length max(len, w), ends with the original string, never truncates, and keeps a numeral's value |
| JsText.DecWidth | tokenizer.js:10 | a number below 10^w is spelled with at most w digits, so padding to w yields exactly w digits |
| JsText.DigitsValueAppend | tokenizer.js:10 | the positional law: value(a+b) = value(a)·10^len(b) + value(b) |
| JsText.DigitsValueLeadingZeros | tokenizer.js:10 | leading zeros added by `padStart` do not change a numeral's value |
| JsText.Split | tokenizer.js:22 | `split(sep)` yields at least one piece, and more than one exactly when sep occurs |
| JsText.Join | tokenizer.js:10 | `join("")`: the pieces concatenated in order (defined recursively; JoinOfFives and JoinOfFivesAt state its shape) |
| JsText.SplitPieces | tokenizer.js:22 | no piece of `split(sep)` contains sep |
| JsText.SplitJoin | tokenizer.js:22 | `split(sep)` then `join(sep)` gives the string back |
| JsText.Reverse | tokenizer.js:25 | `split("").reverse()` puts character len-1-i at position i |
| JsText.StringNumber | tokenizer.js:23 | `Number(s)` of a digit string is its decimal value, and every number it yields is non-negative |
| JsText.FromCharCode | tokenizer.js:54 | `String.fromCharCode(x)` is x itself for x in [0, 65536) |
| Tokenizer.Key | tokenizer.js:8-9 | the key is floor((c0·c1 + 16) / year): k·year ≤ c0·c1+16 < (k+1)·year, so it depends only on the first two codes and the year |
| Tokenizer.FloorDiv | tokenizer.js:9 | `Math.floor(n / d)` for non-negative n is Dafny's n / d, bracketed by multiples of d |
| Tokenizer.Chunk | tokenizer.js:10 | a chunk is all digits; when code+key < 1000 and i+key < 100 it is exactly 5 digits, with the first 3 reading code+key and the last 2 reading i+key |
| Tokenizer.ChunkFields | tokenizer.js:10 | two padded fields read back as their values and have total width 5 when the values fit |
| Tokenizer.PaddedField | tokenizer.js:10 | a value below 10^w padded to w digits has width w and reads back as the value |
| Tokenizer.RaisedDigits | tokenizer.js:11 | the year's later digits with the key added are all digits |
| Tokenizer.YearSegment | tokenizer.js:11 | the year segment contains '-' exactly when key > code of the year's first digit, and is all digits otherwise |
| Tokenizer.Suffix | tokenizer.js:12 | the suffix starts with ':' |
| Tokenizer.Encrypt | tokenizer.js:7-14 | when the fields fit, the token is 5·len digits followed by ':' |
| Tokenizer.PayloadOfFits | tokenizer.js:10-12 | any reordering of the fitting chunks joined and followed by the suffix has that shape |
| Tokenizer.PayloadShape | tokenizer.js:10 | a permutation of five-digit chunks joins to 5 digits per chunk |
| Tokenizer.JoinOfFives | tokenizer.js:10 | joining five-digit chunks gives 5·n digits |
| Tokenizer.Swap | tokenizer.js:68-70 | the three-assignment swap keeps length and multiset |
| Tokenizer.ShuffleFrom | tokenizer.js:66-71 | the remaining rounds of the loop produce a permutation of their input |
| Tokenizer.Shuffled | tokenizer.js:64-73 | the outcome of `shuffle` for given draws, the one Encrypt uses, is a permutation of its input: same length and multiset |
| Tokenizer.Shuffle | tokenizer.js:64-73 | in-place Fisher–Yates leaves the array equal to Shuffled(old, draws), a permutation of the old contents, whatever the draws |
| Tokenizer.DropN | tokenizer.js:38 | removing the first k characters leaves len−k characters, or none |
| Tokenizer.SlotNumberIsNumber | tokenizer.js:29 | `Number(temp.splice(0, 1))` is Number of the one-character string taken, or of "" when none is left |
| Tokenizer.SlotNumber | tokenizer.js:29 | `Number(temp.splice(0, 1))` of one element: a digit's value, 0 for white space or an exhausted array, NaN otherwise; a number is always in 0..9 |
| Tokenizer.Rounds | tokenizer.js:28 | how many times `while (i < keyLength)` runs: keyLength for a positive integer, none for NaN or a non-positive value |
| Tokenizer.KeySum | tokenizer.js:26-31 | the key after a number of rounds: each round adds the next reversed element's number times 10^i, NaN propagates, and a numeric key read in n rounds is below 10^n |
| Tokenizer.Groups | tokenizer.js:34-41 | the payload gives ceil(len/5) groups of five entries |
| Tokenizer.GroupsAt | tokenizer.js:34-41 | entry k of group i is character 5·i+k of the payload |
| Tokenizer.Partial | tokenizer.js:46-53 | the first rounds of a `while (i--)` countdown over a field: element j weighs 10^(len-1-j) |
| Tokenizer.Field | tokenizer.js:46-53 | the number a whole three- or two-element field reads as |
| Tokenizer.Place | tokenizer.js:54 | `values[index - key] = String.fromCharCode(ascii - key)` on a JavaScript array: a NaN or negative slot is ignored, an in-range slot is overwritten, a slot past the end grows the array with holes |
| Tokenizer.PlaceEffect | tokenizer.js:54 | an ignored slot changes nothing; otherwise the slot holds the character, the other existing slots are kept and any new slot before it is a hole |
| Tokenizer.Fill | tokenizer.js:43-55 | the writes of every group, in the order of the groups (FillCharacterized and FillOrderIrrelevant state their effect) |
| Tokenizer.FillSlots | tokenizer.js:43-55 | after the writes the array never shrinks and every slot holds at most one character |
| Tokenizer.Decrypted | tokenizer.js:21-57 | decrypt fails (TypeError) exactly when the text before the first '-' has no ':' |
| Tokenizer.Decoded | tokenizer.js:26-56 | the text decrypt returns once the token is split: the key read from the reversed key text, the payload cut into groups, the writes into `Array(n).fill("")`, joined (DecodedWithKey and PayloadDecrypts state its value) |
| Tokenizer.Decrypt | tokenizer.js:21-57 | the imperative decrypt returns Decrypted(token) |
| Tokenizer.ReadKey | tokenizer.js:26-32 | the key loop sums Number of the i-th reversed key character times 10^i for i below keyLength |
| Tokenizer.CutGroups | tokenizer.js:33-41 | the nested splice loops produce Groups(payload) |
| Tokenizer.TakeGroup | tokenizer.js:36-39 | five `splice(0, 1)[0]` calls take the next five characters and leave the rest |
| Tokenizer.CutStep | tokenizer.js:35-41 | one outer round extends the groups cut so far by the next group of the payload |
| Tokenizer.TakeOne | tokenizer.js:38 | one `splice(0, 1)` takes the next character and drops it |
| Tokenizer.DropTwice | tokenizer.js:38 | dropping a then b characters drops a+b |
| Tokenizer.ReadField | tokenizer.js:46-53 | each countdown loop reads its field as Field(digits) |
| Tokenizer.FillValues | tokenizer.js:42-55 | the write loop produces Fill(empty slots, groups, key) |
| TokenizerRoundTrip.SplitNoSep | tokenizer.js:22-24 | a string without the separator splits into itself |
| TokenizerRoundTrip.SplitFirst | tokenizer.js:22-24 | splitting at a first separator yields the text before it followed by the split of the rest |
| TokenizerRoundTrip.KeySumOfTail | tokenizer.js:28-31 | i rounds of the key loop over the reversed segment read the last i key digits |
| TokenizerRoundTrip.KeyStep | tokenizer.js:29 | one round adds the digit's value times 10^(i−1) |
| TokenizerRoundTrip.TailValue | tokenizer.js:29 | the last i digits are the digit at len−i times 10^(i−1) plus the last i−1 digits |
| TokenizerRoundTrip.ReversedAt | tokenizer.js:25 | the reversed text holds key digit len−i at index i−1 |
| TokenizerRoundTrip.ConsValue | tokenizer.js:29 | prefixing a digit adds its value times 10^len |
| TokenizerRoundTrip.KeyRecovered | tokenizer.js:22-32 | reading keyLength digits recovers the key's value whatever precedes it |
| TokenizerRoundTrip.PartialOfDigits | tokenizer.js:47-53 | after t rounds the countdown loop holds the first t digits' value shifted by the remaining places |
| TokenizerRoundTrip.FieldOfDigits | tokenizer.js:46-53 | a full countdown reads a digit field as its decimal value |
| TokenizerRoundTrip.GroupOfDigits | tokenizer.js:44-54 | a five-digit group writes fromCharCode(first three − key) at slot (last two − key) |
| TokenizerRoundTrip.ChunkPlacement | tokenizer.js:10-54 | the chunk of character code at position j, read back with the same key, writes code at slot j |
| TokenizerRoundTrip.JoinOfFivesAt | tokenizer.js:10 | character 5·i+k of the joined chunks is character k of chunk i |
| TokenizerRoundTrip.GroupOfJoinAt | tokenizer.js:10-41 | group i of the joined chunks is chunk i |
| TokenizerRoundTrip.GroupsOfJoin | tokenizer.js:10-41 | cutting the joined five-character chunks gives back exactly the chunks |
| TokenizerRoundTrip.FillCharacterized | tokenizer.js:43-55 | after the writes, slot j holds the target character if some group names it and is unchanged otherwise |
| TokenizerRoundTrip.PlacesIntoShape | tokenizer.js:43-55 | groups that place into a target are five entries each |
| TokenizerRoundTrip.PlaceOfFirst | tokenizer.js:54 | the first group's write stores its target character in its in-range slot |
| TokenizerRoundTrip.HitCons | tokenizer.js:43-55 | a slot is named by the groups if the first names it or the rest do |
| TokenizerRoundTrip.FillOrderIrrelevant | tokenizer.js:43-55 | writes that agree with one target give the same array in any order of the groups |
| TokenizerRoundTrip.JoinSingletons | tokenizer.js:56 | joining one-character slots spells the text |
| TokenizerRoundTrip.FillSpells | tokenizer.js:42-56 | when every position is named, the joined array is the target text |
| TokenizerRoundTrip.ChunksEncode | tokenizer.js:10 | fitting chunks encode each character at its own position |
| TokenizerRoundTrip.ReorderedChunks | tokenizer.js:10 | a permutation of the chunks has the same elements, count and width |
| TokenizerRoundTrip.GroupPlaces | tokenizer.js:43-54 | every shuffled chunk writes its own character at its own in-range position |
| TokenizerRoundTrip.PositionHit | tokenizer.js:43-54 | every position is written by some shuffled chunk |
| TokenizerRoundTrip.ChunkGroupsPlace | tokenizer.js:34-54 | the groups of a shuffled payload fill every position with its character |
| TokenizerRoundTrip.PayloadDecrypts | tokenizer.js:34-56 | the groups of any shuffled payload decode to the text |
| TokenizerRoundTrip.RoundTrip | tokenizer.js:7-56 | decrypt(encrypt(t)) == t for every shuffle outcome, under the field and key bounds |
| TokenizerRoundTrip.DecryptedOfShape | tokenizer.js:21-56 | a token payload ':' segment key '-' digitcount decodes the payload's groups with the key's value |
| TokenizerRoundTrip.DecimalNumber | tokenizer.js:23 | Number(n.toString()) == n |
| TokenizerRoundTrip.DecodedWithKey | tokenizer.js:26-56 | the decoded text depends on the key text only through the key it reads |
| TokenizerRoundTrip.DecryptedOfSplit | tokenizer.js:22-25 | a digit token with one ':' and one '-' splits into payload, key text and key length |
| TokenizerRoundTrip.SplitToken | tokenizer.js:22-24 | the two splits of such a token give exactly those parts |
| TokenizerRoundTrip.RoundTripThisMillennium | tokenizer.js:7-56 | in the years 2000–2999 the round trip holds whenever key ≤ 50 and the fields fit |
| TokenizerRoundTrip.LeadOfTens | tokenizer.js:11 | a number's first digit is that of its tenth |
| TokenizerRoundTrip.ShuffleInvisible | tokenizer.js:7-73 | the decoded token is the same for any two shuffle outcomes |
| Helpers.LowerCase | helpers.js:4-11 | the accumulating loop yields Alphabet() |
| Helpers.AlphabetLetters | helpers.js:4-11 | `lowerCase` is the 26 letters a..z, strictly increasing, and exactly the lowercase letters |
| Helpers.CreateLowerCaseObject | helpers.js:13-19 | the object has one key per lowercase letter, no other key, and every bucket empty |
| Helpers.UpdateUsers | helpers.js:26-34 | the grouping loop throws exactly when some id has no bucket, and otherwise returns Grouped(ids) |
| Helpers.Bucket | helpers.js:29-33 | the ids that the loop pushes onto bucket c, in input order; every one of them starts with c |
| Helpers.Grouped | helpers.js:29-33 | the table the loop returns: for every letter, its bucket (GroupedMembership, BucketAppend and GroupedTotal state its content) |
| Helpers.GroupedEmpty | helpers.js:29 | the empty lowercase object is the grouping of no ids |
| Helpers.GroupedKey | helpers.js:31 | `userObject[u[0]]` exists exactly when u has a lowercase first character |
| Helpers.GroupedStep | helpers.js:31-33 | one loop turn pushes the id onto its bucket |
| Helpers.GroupedSnoc | helpers.js:31-33 | grouping one more id appends it to its bucket and leaves the other buckets alone |
| Helpers.BucketAppend | helpers.js:31-33 | buckets keep input order: the bucket of a+b is that of a followed by that of b |
| Helpers.GroupedMembership | helpers.js:29-33 | the grouped table is well formed and bucket c holds exactly the ids starting with c |
| Helpers.GroupedTotal | helpers.js:29-33 | when every id has a bucket, the bucket sizes sum to the number of ids |
| Helpers.SizeOverUpdate | helpers.js:36-43 | replacing one bucket changes the count over distinct letters by the difference in bucket length |
| Helpers.SizeOverEmpty | helpers.js:13-19 | empty buckets hold no names |
| Helpers.TableSizeUpdate | helpers.js:36-43 | replacing a letter's bucket changes the table size by the difference in bucket length |
| Helpers.IndexOf | helpers.js:41 | `indexOf` is −1 exactly for an absent name, and otherwise the first index holding it |
| Helpers.Added | helpers.js:37 | `this.users[u[0]].push(u)` on the table (AddedProperties states its effect) |
| Helpers.Splice1 | helpers.js:41 | `splice(start, 1)` with JavaScript's negative-start rule: it removes at most one element and adds none |
| Helpers.RemovedOld | helpers.js:41 | `this.users[o[0]].splice(this.users[o[0]].indexOf(o), 1)` on the table (RemovedOldPresent and RemovedOldAbsent state its effect) |
| Helpers.RemovedOldPresent | helpers.js:41 | for a present old name, the splice removes its first occurrence and nothing else |
| Helpers.RemovedOldAbsent | helpers.js:41 | for an absent old name, `splice(-1, 1)` removes the bucket's last name |
| Helpers.RemovedOldAbsentExample | helpers.js:41 | renaming the absent "ad" drops "ac" from ["ab", "ac"] |
| Helpers.AddedProperties | helpers.js:36-38 | pushing a name keeps the table well formed, adds one to its size and makes the name present |
| Helpers.RemovedOldProperties | helpers.js:41 | removing a present name keeps the table well formed and takes one from its size |
| Helpers.RenameKeepsSize | helpers.js:40-43 | renaming a present name keeps the table well formed and its size unchanged |
| Helpers.RemovedOldWellFormed | helpers.js:41 | the splice keeps the table well formed, whatever the index |
| Helpers.Globals.constructor | helpers.js:22-34 | the index built from the ids is Grouped(ids) and well formed |
| Helpers.Globals.AddNewUser | helpers.js:36-38 | push onto bucket u[0], leaving the other buckets alone; when there is no bucket it throws and nothing changes; the index stays well formed |
| Helpers.Globals.UpdateOldUsername | helpers.js:40-43 | splice the old name out, then push the new one; it throws before any change when the old name has no bucket, and after the splice when the new one has none |
| Db.RunEnd | db.js:80 | a character-class run ends at the first character outside the class |
| Db.RunEndExact | db.js:80 | a class run that stops at a non-class character ends exactly there |
| Db.MatchAt | db.js:80 | the direct reading of the pattern: a lowercase letter, at least one `[a-z0-9_.-]`, '@' at `at`, at least one `[a-z0-9-]`, '.' at `dot`, a lowercase letter |
| Db.MatchesPattern | db.js:80 | some prefix of the string matches the pattern (the regular expression is anchored only at the start) |
| Db.IsEmailValid | db.js:79-81 | an accepted address has at least 6 characters and a lowercase first letter |
| Db.EmailValidMatches | db.js:80 | the scanner accepts exactly the strings that have a prefix matching the pattern (both directions) |
| Db.EmailTrailingText | db.js:80 | the pattern is not anchored at the end: "ab@c.d!" is accepted |
| Db.EmailUpperCaseFirst | db.js:80 | an uppercase first letter is rejected |
| Db.EmailShortLocalPart | db.js:80 | a one-character local part is rejected |
| Db.EmailEmptyDomain | db.js:80 | an empty domain label is rejected |
| Db.UpdateName | db.js:221-230 | the imperative record update produces Merged(current, first, last) |
| Db.MergedNothingGiven | db.js:221-230 | missing or empty arguments leave the name unchanged |
| Db.MergedIdempotent | db.js:221-230 | repeating the update with the same arguments changes nothing |
| Db.MergedKeepsNonEmpty | db.js:221-230 | a name with non-empty fields keeps non-empty fields |
| Db.UsernameAlreadyExists | db.js:238-240 | on a well-formed index the lookup throws exactly for names without a bucket, and is true exactly when the name is in some bucket |
| Db.ExistsInGrouped | db.js:238-240 | on the index built from the ids, a name exists exactly when it is one of them |
| Db.ExistsAfterAdd | db.js:238-240 | after `addNewUser(u)`, u exists |
| Db.ExistsAfterRename | db.js:238-240 | after renaming a name present once, the old name no longer exists and the new one does |

## Left out

- `server.js` (Express routes and HTTP responses), `mongoose.js` and `config.js` (schemas, models and environment variables) are not part of this model.
- All database calls in `db.js`:
  - the connection;
  - `verify`, `findAll`, `findById` and `extractUserNames`;
  - the save paths of `createUser` and the `update*` methods;
  - the top-level `await` at db.js:264.
- `updateName` after the merge: the `_doc` it reads at db.js:233-234 is an undefined variable. Only the merge at db.js:221-230 is modelled.
- `updateUserName`, because it calls `usernameAlreadyExists()` with no argument (db.js:253).
- The `Object.prototype` patches of `db.js`.
- `Globals`' constructor: the source stores a Promise in `this.users` (helpers.js:22-24). The model builds the table directly from the list of ids, which stands for the result of the user query.
- JavaScript arrays are shared by reference, so two references to one bucket would see each other's updates. The model keeps buckets as values in a map.
- The clock and the random source. `new Date().getFullYear()` is the `year` parameter of `Encrypt`. The `Math.random()` draws are the `choices` parameter of `Shuffle` and `Encrypt`: round j draws an index below n−j.
- Tokenizer.Encrypt: requires at least two characters. With fewer, `charCodeAt(1)` is NaN and the key and the token are NaN-laden strings; that path is not modelled.
- Tokenizer.Decrypted: a token character outside the Basic Multilingual Plane is one element in the model and two UTF-16 code units in the source, whose `split("")` and `.length` (tokenizer.js:25, 34-35) count code units. Such a token is cut into different groups: for "1", U+1F600, "1234:0-0" the two decrypt different texts. Tokens that encrypt produces are all ASCII, so the round trip is unaffected.
- Tokenizer.Decrypted: handles only the inputs that string-to-number conversion meets in real tokens:
  - ASCII digits, surrounding JavaScript white space and the empty string;
  - everything else is NaN.
  - Signs, fractions, exponents, hexadecimal, `Infinity` and floating-point rounding of large keys are not modelled.
- Db.UsernameAlreadyExists: takes the index as a parameter instead of reading the global `__globals.users`.
- Db.IsEmailValid: `RegExp.prototype.test` on a non-string argument converts it to a string first; only strings are modelled.
