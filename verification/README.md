# Proofs about the computational core of anarchNet

The project models the parts of the repository that compute, and proves what they promise.

* **Big integers** (`JsNumber`, `Limbs`, `AmSteps`, `BigInteger`, `Multiply`, `Shifts`, `Divide`, `Modular`,
  `Montgomery`, `Barrett`, `Reducer`, `Bits`, `ModPow`, `Gcd`, `Inverse`, `Radix`). A number is an object with limbs
  `d`, their number `t` and the sign word `s`; its value is the sum of `d[i] * DV^i` plus `s * DV^t`. The radix DV is
  any of 2^26, 2^28 and 2^30. The machine operators of JavaScript are functions with range conditions, so that every
  use is shown to stay within 32-bit words or within the integers that doubles hold exactly. Operands may be the same
  object wherever the code allows it. Methods of the prototypes are methods of the class or of a module, with the
  receiver as first argument.
* **Diff, match and patch** (`Strings`, `Diffs`, `CleanupMerge`, `Cleanup`, `Semantic`, `HalfMatch`, `Lines`,
  `Distance`, `BisectPaths`, `BisectWays`, `Bisect`, `DiffSize`, `DiffMain`, `Patches`, `PatchMake`, `SplitMax`,
  `PatchApply`, `DiffMatchPatch`, `PercentCodec`, `Tokens`, `PatchText`, `Delta`). A diff is a list that the passes
  change in place. How short it is, is measured against a distance defined on the two texts alone. Two slips of the
  library are switches: `fixed` and `byPosition` are false for the code as it is and true for what it means to do.
  Every law says what holds for each setting.
* **Objects with a history** (`History`): versions kept as printed patches, and their replay.
* **AES** (`AesTable`, `AesField`, `AesSbox`, `AesLaw`, `Aes`) against the text of FIPS 197, **Base64** (`Base64`)
  and a **cache of recently used records** (`LruCache`).

The deadline of a diff is a choice that may strike at any round. The fuzzy match, the merge of an imperfect match, the
scoring of boundaries, the hash of contents, the answers of the store and the byte behind the decoding table are
parameters, and the results hold for all of them.

## Model

| member | source | states |
|---|---|---|
| AmSteps.Am1Step | frontend/parannus/repo-disabled/crypto/jsbn.js:33-40 | one limb of the 26-bit kernel: the low digit and the carry of `x*a + w + c`, by a mask and a floored division of a double |
| AmSteps.Am2Step | frontend/parannus/repo-disabled/crypto/jsbn.js:44-55 | the same for 30-bit limbs cut into 15-bit halves, every intermediate an unsigned 32-bit word |
| AmSteps.Am3Step | frontend/parannus/repo-disabled/crypto/jsbn.js:58-69 | the same for 28-bit limbs cut into 14-bit halves, every intermediate a signed 32-bit word |
| AmSteps.StepMaximum | frontend/parannus/repo-disabled/crypto/jsbn.js:30-32 | the largest value any kernel holds is `2*b^2 - b - 1` |
| AmSteps.StepMaximumReached | frontend/parannus/repo-disabled/crypto/jsbn.js:30-32 | that value is reached, and exceeds the `2*b^2 - 2*b` the comment names |
| BigIntegers.BigInteger.CompareTo | frontend/parannus/repo-disabled/crypto/jsbn.js:210-218 | zero exactly for equal values; the sign is right unless both operands are negative with different limb counts, and then it is exactly reversed |
| BigIntegers.BigInteger.SubTo | frontend/parannus/repo-disabled/crypto/jsbn.js:289-319 | r becomes the difference of the two signed values, clamped, also when r is one of the operands or both are the same object |
| BigIntegers.BigInteger.AddTo | frontend/parannus/repo-disabled/crypto/jsbn2.js:253-283 | the same for the sum |
| Multiply.MultiplyTo | frontend/parannus/repo-disabled/crypto/jsbn.js:323-332 | r becomes the signed product |
| Multiply.SquareTo | frontend/parannus/repo-disabled/crypto/jsbn.js:335-349 | r becomes the square, although off-diagonal products are added once with a doubled multiplier |
| Shifts.LShiftTo | frontend/parannus/repo-disabled/crypto/jsbn.js:254-268 | value times 2^n, for negative numbers too, and in place |
| Shifts.RShiftTo | frontend/parannus/repo-disabled/crypto/jsbn.js:271-286 | value divided by 2^n and rounded down, for negative numbers too, and in place |
| Shifts.GetLowestSetBit | frontend/parannus/repo-disabled/crypto/jsbn2.js:208-213 | the exponent of the largest power of two that divides the value, -1 for zero |
| Bits.BitLength | frontend/parannus/repo-disabled/crypto/jsbn.js:232-235 | brackets the value, or for a negative e the value -1 - e, between two powers of two |
| Divide.EstimateBounds | frontend/parannus/repo-disabled/crypto/jsbn.js:381-387 | the estimate of a quotient digit from two limbs is never below the true digit and never above DV |
| Divide.DivRemTo | frontend/parannus/repo-disabled/crypto/jsbn.js:353-398 | truncated quotient and signed remainder for every dividend and non-zero divisor, with either output missing or overwriting either operand, except exactly where the quotient overwrites a dividend of fewer limbs than the divisor, whose remainder then is 0; division by zero writes nothing |
| Reducers.Mod | frontend/parannus/repo-disabled/crypto/jsbn.js:401-406 | the remainder between 0 and the positive modulus, for negative dividends too |
| Montgomery.InvDigit | frontend/parannus/repo-disabled/crypto/jsbn.js:435-448 | -1/m modulo DV for the lowest limb of an odd m, 0 otherwise |
| Montgomery.MontReduce | frontend/parannus/repo-disabled/crypto/jsbn.js:478-494 | below m, and times DV^t congruent to what it was |
| Barrett.MultiplyLowerTo | frontend/parannus/repo-disabled/crypto/jsbn2.js:345-354 | the product modulo DV^n |
| Barrett.MultiplyUpperTo | frontend/parannus/repo-disabled/crypto/jsbn2.js:358-367 | the product without its low n limbs, never too big and too small by at most as many units as the second factor has limbs |
| Barrett.BarrettReduce | frontend/parannus/repo-disabled/crypto/jsbn2.js:388-396 | x modulo m for every x of at most twice the limbs of m |
| Reducers.Reducer.Reduce | frontend/parannus/repo-disabled/crypto/jsbn.js:409-500 | the three reducers behind one contract: the result is below m and congruent to the argument times the reducer's constant |
| Reducers.Reducer.MulTo | frontend/parannus/repo-disabled/crypto/jsbn.js:416-500 | what stands for a and for b gives what stands for a * b |
| ModPow.ModPow | frontend/parannus/repo-disabled/crypto/jsbn2.js:411-467 | x^e mod m for every x and e >= 0, by sliding windows over any of the three reducers; a negative e stands for the number its limbs make |
| Gcds.GCD | frontend/parannus/repo-disabled/crypto/jsbn2.js:470-495 | the greatest common divisor of the absolute values, defined independently by its common divisors |
| Inverses.InverseCorrect | frontend/parannus/repo-disabled/crypto/jsbn2.js:508-547 | the result times x is 1 modulo m when x and m are coprime, and the result is 0 exactly when they are not |
| Inverses.ModInverse | frontend/parannus/repo-disabled/crypto/jsbn2.js:508-547 | the method computes that function, for even and odd moduli |
| Inverses.InRangeIff | frontend/parannus/repo-disabled/crypto/jsbn2.js:544-546 | the corrections at the end give a result between 0 and m exactly if the last coefficient is between -2m and 2m |
| Inverses.CoefficientBounds | frontend/parannus/repo-disabled/crypto/jsbn2.js:513-542 | for x*m below 2^(k+1) the coefficient stays between -(m + k*m/4) and m/2 + k*m/4, since a round widens its range by at most m/4 |
| Inverses.InverseBounds | frontend/parannus/repo-disabled/crypto/jsbn2.js:508-547 | how far the result can be out of range for operands of given size, and that it cannot be for k <= 4 |
| Inverses.OddModulusOutOfRange | frontend/parannus/repo-disabled/crypto/jsbn2.js:544-546 | the inverse of 1748 modulo 3659 comes out as -651 |
| Inverses.EvenModulusOutOfRange | frontend/parannus/repo-disabled/crypto/jsbn2.js:544-546 | the inverse of 14205 modulo 29332 comes out as -10403 |
| RadixConversion.DigitCharacters | frontend/parannus/repo-disabled/crypto/jsbn.js:93-105 | the digits are the ten figures and then the small letters |
| RadixConversion.ToString | frontend/parannus/repo-disabled/crypto/jsbn.js:174-201 | the digits of the value in radix 2^k, k = 1..5, by a bit cursor that crosses limbs |
| RadixConversion.FromString | frontend/parannus/repo-disabled/crypto/jsbn.js:129-165 | the value a digit string denotes, digits packed across limbs |
| RadixConversion.StringRoundTrip | frontend/parannus/repo-disabled/crypto/jsbn.js:129-201 | what is printed parses back to the value, for every integer and radix |
| RadixConversion.ToByteArray | frontend/parannus/repo-disabled/crypto/jsbn2.js:110-132 | signed bytes whose two's complement value is the number |
| RadixConversion.ByteRoundTrip | frontend/parannus/repo-disabled/crypto/jsbn2.js:110-132 | reading the byte array back gives the number |
| Strings.CommonPrefix | third-party/diff_match_patch-stl/diff_match_patch.h:696-705 | characters in common at the front, and no longer such prefix |
| Strings.CommonOverlap | third-party/diff_match_patch-stl/diff_match_patch.h:735-774 | the longest suffix of one text that begins the other exactly when the suffix comparison is harmless on them; always, with the comparison corrected |
| Strings.OverlapMisreported | third-party/diff_match_patch-stl/diff_match_patch.h:768-772 | "wbb" and "abbX" do not overlap, yet the suffix comparison does harm on them |
| HalfMatches.FindHalfMatch | third-party/diff_match_patch-stl/diff_match_patch.h:795-859 | a split around a common part of at least half the longer text is found exactly if there is such a part, save in texts of less than four characters, and then around a longest common part |
| EditDistances.NoDiffShorter | third-party/diff_match_patch-stl/diff_match_patch.h:467-475 | no diff edits fewer characters than the distance of its two texts, which is defined on the texts alone |
| EditDistances.ReplacedWhole | third-party/diff_match_patch-stl/diff_match_patch.h:583-587 | that distance is both lengths together exactly if the texts have no character in common |
| BisectWays.EndWays | third-party/diff_match_patch-stl/diff_match_patch.h:499-546 | what a round of a path keeps: no point it stands on is further away than its rounds, and up to the edges no point as near lies further along its diagonal |
| Bisect.Search | third-party/diff_match_patch-stl/diff_match_patch.h:482-588 | for texts without a common end the middle snake that is found lies inside the grid, at no corner and on a shortest edit path; when none is found without a deadline, the texts have nothing in common; every vector and text access is in range |
| Lines.LinesToChars | third-party/diff_match_patch-stl/diff_match_patch.h:632-669 | each text is spelt by line numbers, and the table has each different line of both texts once |
| Lines.CharsToLines | third-party/diff_match_patch-stl/diff_match_patch.h:678-687 | the numbers in a diff become the lines again |
| Lines.FewLines | third-party/diff_match_patch-stl/diff_match_patch.h:657-669 | room for four lines more than both texts have different ones is enough for every comparison of their parts |
| CleanupMerging.FirstPass | third-party/diff_match_patch-stl/diff_match_patch.h:1192-1270 | edits become tidy and equalities that stand side by side one: afterwards two do so exactly if a run between them has cancelled out |
| CleanupMerging.CleanupMerge | third-party/diff_match_patch-stl/diff_match_patch.h:1192-1314 | both texts stay; edits meet only as a deletion and an insertion with no common end; no single edit between two equalities ends with the first or begins with the second, so none can be shifted; neither the edited characters nor else the entries grow, which is why the recursion ends |
| Cleanup.SplitSemantic | third-party/diff_match_patch-stl/diff_match_patch.h:866-934 | both texts stay, and something changes exactly if an equality is no longer than the edits on both of its sides |
| Cleanup.SplitEfficiency | third-party/diff_match_patch-stl/diff_match_patch.h:1106-1179 | something changes exactly if an equality shorter than the edit cost has both kinds of edit on both sides, or three of the four around less than half the cost |
| Cleanup.CleanupEfficiency | third-party/diff_match_patch-stl/diff_match_patch.h:1096-1184 | both texts stay; without such an equality nothing changes, and with one some equalities are given up and the list ends in both normal forms of diff_cleanupMerge |
| Semantic.LeftmostIff | third-party/diff_match_patch-stl/diff_match_patch.h:990-997 | the slide to the left goes as far as possible unless the edit stands a second time before itself and can go on |
| Semantic.BestSlide | third-party/diff_match_patch-stl/diff_match_patch.h:999-1019 | of all places of an edit from the end of that slide on, the last of those that score best |
| Semantic.AlignedUnique | third-party/diff_match_patch-stl/diff_match_patch.h:999-1019 | only one place meets that |
| Semantic.CleanupSemanticLossless | third-party/diff_match_patch-stl/diff_match_patch.h:971-1039 | both texts stay for every scoring, each single edit from left to right takes its best place, and nothing changes when no edit can be slid |
| Semantic.CleanupSemantic | third-party/diff_match_patch-stl/diff_match_patch.h:866-962 | text2 and the length of text1 stay; swallowed equalities are given up, the list is merged, and the single edits take their best places; text1 stays exactly if the overlap search is harmless on the list after that, which for a settled list is the input, and then no deletion is left that overlaps the insertion behind it; it stays for every list if no parts of the two texts make the suffix comparison do harm |
| Semantic.PartsHarmless | third-party/diff_match_patch-stl/diff_match_patch.h:938-961 | texts no parts of which make it do harm have no diff on which the search does |
| Strings.PairsApartNoHarm | third-party/diff_match_patch-stl/diff_match_patch.h:768-772 | that is so when no two neighbouring characters of one text are neighbours in the other, unless the second of them occurs only once in it |
| Semantic.OverlapLosesText | third-party/diff_match_patch-stl/diff_match_patch.h:938-961 | a run of the clean-up that loses "wbb" |
| DiffSizes.InnerDistance | third-party/diff_match_patch-stl/diff_match_patch.h:305-325 | common ends make no difference to the distance |
| DiffEngine.DiffMain | third-party/diff_match_patch-stl/diff_match_patch.h:294-402 | the diff has text2 and the length of text1, and has text1 exactly if every overlap search of line mode is harmless; the lists searched lie between parts of the texts, so it has text1 whenever no parts of the two texts make the suffix comparison do harm. Equal texts give one equality; without a deadline and up to 100 characters no diff edits fewer characters; always the common ends are kept, a text inside the other one is, and with a deadline a half match is |
| DiffEngine.LineMode | third-party/diff_match_patch-stl/diff_match_patch.h:414-465 | without a deadline every block of the cleaned diff by lines that replaces lines gives way to a shortest diff of them |
| DiffEngine.NoHarmAnywhere | third-party/diff_match_patch-stl/diff_match_patch.h:414-465 | no search of line mode does harm in texts no parts of which make the suffix comparison do any |
| DiffEngine.LineModeLosesText | third-party/diff_match_patch-stl/diff_match_patch.h:414-465 | a run of diff_main on two texts of one line each, of any length from 101 on, that loses the first |
| Patches.AddContext | third-party/diff_match_patch-stl/diff_match_patch.h:1741-1780 | the context is the first number of margins at which the pattern is unique or too long to search for, and one margin more |
| Patches.ContextUnique | third-party/diff_match_patch-stl/diff_match_patch.h:1741-1780 | there is only one such context |
| PatchMaking.PatchMake | third-party/diff_match_patch-stl/diff_match_patch.h:1835-1907 | for a diff of text1 the patches, applied in order where they say, give the second text exactly if each of them keeps enough of its group of diffs; each is then its group, at its place, with that context |
| PatchMaking.InContextBounded | third-party/diff_match_patch-stl/diff_match_patch.h:1741-1780 | so its source text is its group or less than Match_MaxBits, whichever is longer, and two margins |
| PatchMaking.LosesNothing | third-party/diff_match_patch-stl/diff_match_patch.h:1868 | with the test for the last diff by position, or a last diff unlike every equality short enough to be lost, every group keeps enough |
| PatchMaking.ApartFaithful | third-party/diff_match_patch-stl/diff_match_patch.h:1868 | so does every group of every diff between two texts that have no common end twice in both |
| PatchMaking.LastOccursOnce | third-party/diff_match_patch-stl/diff_match_patch.h:1868 | as texts do that end differently, or one of which has its last character once |
| PatchMaking.LostFaithful | third-party/diff_match_patch-stl/diff_match_patch.h:1868 | when an equality between two deletions is lost, enough is kept exactly if it may change places with the second deletion |
| PatchMaking.LostEquality | third-party/diff_match_patch-stl/diff_match_patch.h:1868 | the patch for "XabYab" fits nowhere in it, whatever its context; for "aaaaaa" nothing is missed |
| PatchApplying.AddPadding | third-party/diff_match_patch-stl/diff_match_patch.h:2036-2089 | all patches move by the padding and the first is padded at both ends |
| Splitting.SplitMax | third-party/diff_match_patch-stl/diff_match_patch.h:2098-2188 | small patches stay; the others are cut into pieces that take as much as fits between their contexts, each with the margin that follows it; no piece has a pattern longer than Match_MaxBits unless it holds an oversized deletion, and the pieces lead where the patches led |
| PatchApplying.PatchApply | third-party/diff_match_patch-stl/diff_match_patch.h:1928-2027 | the padded patches are split, and every piece is looked for where the one before it suggests; patches that lead from the text to u give u with every result true, one for each piece |
| PatchApplying.OffsetForgotten | third-party/diff_match_patch-stl/diff_match_patch.h:1946-1979 | a piece that is found where the offset of the one before it suggests leaves the next without an offset |
| DiffMatchPatch.MakePatches | third-party/diff_match_patch-stl/diff_match_patch.h:1790-1799 | patch_make from two texts: its diff is that of diff_main after both clean-ups; the conditions above on that diff, and the conditions on the two texts alone that make the patches lead from one to the other as the code is; with both slips corrected they do for all texts; equal texts give no patches |
| DiffMatchPatch.MakeAndApply | third-party/diff_match_patch-stl/diff_match_patch.h:1790-2027 | patch_apply(patch_make(a, b), a) is b with every patch applied, whenever no parts of a and b make the suffix comparison do harm and no common end stands twice in both, and always with both slips corrected; there are no results exactly if a is b |
| DiffMatchPatch.CharactersApart | third-party/diff_match_patch-stl/diff_match_patch.h:1790-2027 | one look at the characters of the texts that is enough for both conditions |
| PercentCodec.SafeIsTable | third-party/diff_match_patch-stl/diff_match_patch.h:2354 | the characters that stand for themselves are those of the table |
| PercentCodec.PercentRoundTrip | third-party/diff_match_patch-stl/diff_match_patch.h:2353-2469 | decoding the encoding gives back the 7-bit characters, so all of the text exactly if all are |
| PatchText.PrintedPatch | third-party/diff_match_patch-stl/diff_match_patch.h:170-184 | a patch as it is printed, with its header counted from one and a sign on each line |
| PatchText.TextRoundTrip | third-party/diff_match_patch-stl/diff_match_patch.h:2196-2298 | reading printed patches gives them back exactly if their text is 7-bit, and otherwise without the other characters |
| PatchText.FromText | third-party/diff_match_patch-stl/diff_match_patch.h:2212-2298 | the scanner with its cursor computes the grammar on lines |
| Deltas.DocumentedDelta | third-party/diff_match_patch-stl/diff_match_patch.h:1468-1472 | the delta the documentation gives for keeping three characters, deleting two and inserting "ing" |
| Deltas.DeltaRoundTrip | third-party/diff_match_patch-stl/diff_match_patch.h:1476-1556 | reading a delta against its first text gives the diff back exactly if the inserted text is 7-bit |
| Deltas.ParseSound | third-party/diff_match_patch-stl/diff_match_patch.h:1510-1556 | whatever a delta says, a diff it is read as has the given first text |
| ObjectHistory.PatchContent | src/daemon/db_manager.cc:68-72 | printed patches lead from one 7-bit version to the next if the diff led there, and so for all versions that meet the two conditions above; always from the empty text, and always with both slips corrected; they are empty between equal versions |
| ObjectHistory.Object.Create | src/daemon/db.cc:56-72 | the object is valid with one version, which replays for every setting if it is 7-bit |
| ObjectHistory.Object.Update | src/daemon/db_manager.cc:68-91 | one more revision with the old master before it, made from the old head, which leads on to the text when both are 7-bit and meet the two conditions; head is the text; every version is made from the one before it exactly if that was so and the old head was the last version |
| ObjectHistory.Object.Get | src/daemon/db.cc:111-126 | replaying up to a revision gives the text its diffs lead to, one after the other |
| ObjectHistory.LedReplays | src/daemon/db.cc:111-126 | that is its version, if up to it every version was made from the one before it by a diff that led on |
| ObjectHistory.Object.Rollback | src/daemon/db_manager.cc:153-173 | head and master go back to the revision, or nothing changes when there is none; the history stays as it is |
| ObjectHistory.UnchangedReplays | src/daemon/db_manager.cc:68-91 | an update that changes nothing gives a revision that replays the last version, whatever the head is |
| ObjectHistory.RollbackForgotten | src/daemon/db_manager.cc:68-91 | after an update from a to b, a rollback and an update that changes nothing, the head is a, but its revision gives b |
| ObjectHistory.Recall | src/daemon/db.cc:111-126 | after any number of updates every revision gives its text, if all texts up to it are 7-bit and each meets the two conditions with the one before it, or its recorded diff leads; with the slips corrected, if they are 7-bit |
| ObjectHistory.UnharmedLed | src/daemon/db.cc:111-126 | texts that meet the conditions have been recorded by diffs that lead |
| SubstitutionLaw.SubIsSubstitute | frontend/parannus/repo-disabled/crypto/aes.js:160-177 | every entry of the table is the affine map of section 5.1.1 of FIPS 197 applied to the inverse in the field |
| Aes.MixIsRow | frontend/parannus/repo-disabled/crypto/aes.js:192-202 | the column step with one xor of all four bytes is multiplication by the matrix |
| Aes.RoundIsStandard | frontend/parannus/repo-disabled/crypto/aes.js:126-131 | each byte of a round is the row of the matrix of section 5.1.3 applied to the substitutes of four bytes of the shifted state, plus the byte of the key |
| Aes.LastRoundIsStandard | frontend/parannus/repo-disabled/crypto/aes.js:132-134 | the last round does without the matrix |
| Aes.Encrypt | frontend/parannus/repo-disabled/crypto/aes.js:123-135 | in place, the block becomes what section 5.1 of FIPS 197 makes of it with the schedule |
| Aes.ExpandKey | frontend/parannus/repo-disabled/crypto/aes.js:93-116 | the schedule of a key of 16, 24 or 32 bytes is that of section 5.2 of FIPS 197; any other key is left as it is |
| Aes.DecryptEncrypt | frontend/parannus/repo-disabled/crypto/aes.js:123-154 | decryption undoes encryption for every block and every schedule of at least two round keys |
| Aes.Init | frontend/parannus/repo-disabled/crypto/aes.js:59-73 | the inverse tables invert, and the doubling table is multiplication by two in the field |
| Aes.EncryptAndDecrypt | frontend/parannus/repo-disabled/crypto/aes.js:123-154 | both run in place on one array leave it as it was |
| Base64.RoundTrip | third-party/libb64/src/cdecode.c:25-87 | decoding undoes encoding for every byte sequence, line feeds included |
| Base64.LettersInRanges | third-party/libb64/src/cencode.c:19-24 | the alphabet is that of table 1 of RFC 4648 |
| Base64.EncodedIsRfc4648 | third-party/libb64/src/cencode.c:26-108 | without its line feeds the code is that of section 4 of RFC 4648, in the letters of that alphabet |
| Base64.LinesAreFull | third-party/libb64/src/cencode.c:75-80 | a line feed stands behind every 72 characters and nowhere else |
| Base64.EncodeBlock | third-party/libb64/src/cencode.c:26-85 | the resumable encoder computes the function on its state, block by block, and writes nothing behind its result |
| Base64.DecodeBlock | third-party/libb64/src/cdecode.c:25-87 | the resumable decoder likewise, but for the one byte behind its result |
| Base64.ThereAndBack | third-party/libb64/src/cdecode.c:25-87 | encoding in any blocks and decoding in any other blocks gives the bytes back |
| LruCaching.MostRecentOrder | src/daemon/lru_cache.h:63-124 | the reference order of keys is by last access, the latest first |
| LruCaching.LruCache.Call | src/daemon/lru_cache.h:63-124 | the value of the function, which is evaluated exactly if the key is not among the most recent ones |
| LruCaching.Run | src/daemon/lru_cache.h:63-124 | after any accesses the cache holds exactly the most recent distinct keys, and every value returned was right |

## Findings

What the proofs show the code to do differently from what it, or its comments, promise. The input is one that fails;
the condition says exactly when it happens.

| source | what | input | condition | member |
|---|---|---|---|---|
| frontend/parannus/repo-disabled/crypto/jsbn.js:213-215 | compareTo is reversed | -1 and a negative number of two limbs | both operands negative with different limb counts | BigIntegers.BigInteger.CompareTo |
| frontend/parannus/repo-disabled/crypto/jsbn.js:357-360 | divRemTo loses the remainder | 1 by DV with the quotient written over the dividend leaves 0 | the quotient is the dividend object, a remainder is asked for, and the dividend is not zero and has fewer limbs than the divisor; toRadix (jsbn2.js:51), the one such call, divides by a single limb | Divide.DivRemTo |
| frontend/parannus/repo-disabled/crypto/jsbn2.js:544-546 | modInverse leaves its range | 1748 mod 3659 gives -651; 14205 mod 29332 gives -10403 | the last coefficient is outside -2m..2m; impossible for x*m < 32, and the excess is bounded by the sizes of x and m | Inverses.InRangeIff, Inverses.InverseBounds |
| frontend/parannus/repo-disabled/crypto/jsbn2.js:412-440 | modPow takes the limbs of a negative exponent for an exponent | any e < -1 whose highest limb is not zero gives x^(e + DV^t) mod m, and e = -1 gives 1 | e < 0 | ModPow.ModPow |
| frontend/parannus/repo-disabled/crypto/jsbn.js:27-32 | the comments on the kernels | a carry of 3*dvalue - 1 is allowed; values of 2*dvalue^2 - dvalue - 1 occur | the carry must not exceed the multiplier, which every caller meets | AmSteps.StepMaximum, AmSteps.StepMaximumReached |
| third-party/diff_match_patch-stl/diff_match_patch.h:769 | diff_commonOverlap compares two suffixes | "wbb" and "abbX" are said to overlap by two | Strings.SuffixTestHarmless fails: behind the true overlap, the first place where one character more is found ends within the common suffix | Strings.CommonOverlap |
| third-party/diff_match_patch-stl/diff_match_patch.h:990 | diff_cleanupSemanticLossless does not slide an edit as far left as possible | "ab" behind the equality "abab" stops in the middle of it | the common suffix of the equality and the edit is the whole edit, and the character before it ends the edit | Semantic.LeftmostIff |
| third-party/diff_match_patch-stl/diff_match_patch.h:938-961 | diff_cleanupSemantic can lose text1 | the deletion "wbb" with the insertion "abbX" | the suffix comparison does harm on some pair in the list searched; never when no parts of the two texts make it do harm | Semantic.CleanupSemantic, Semantic.OverlapLosesText |
| third-party/diff_match_patch-stl/diff_match_patch.h:414-465 | so can diff_main in line mode | "w" and "a" before the same run of at least 100 "b", with an "X" behind the second | the same, in a list searched in line mode, for texts of one line each without a deadline on the two texts; never when no parts of the two texts make the comparison do harm, for instance when no neighbours in one text are neighbours in the other | DiffEngine.DiffMain, DiffEngine.LineModeLosesText, Strings.PairsApartNoHarm |
| third-party/diff_match_patch-stl/diff_match_patch.h:1211-1256 | diff_cleanupMerge does not always merge equalities that end up side by side | the deletion and the insertion of "a" in front of the equality "b" | a run of more than one edit deletes what it inserts, between two equalities or, with some text, in front of the first | CleanupMerging.FirstPass |
| third-party/diff_match_patch-stl/diff_match_patch.h:1868 | patch_make recognises the last diff by value | "XabYab" to "abab": the patch fits nowhere | some group without its lost equalities does not read what the group reads, or does not leave what it leaves; never when no common end of the two texts stands twice in both, for instance when their last characters differ | PatchMaking.PatchMake, PatchMaking.LostEquality, PatchMaking.ApartFaithful |
| third-party/diff_match_patch-stl/diff_match_patch.h:2072 | patch_addPadding pads the end of the first patch, not of the last | any two patches | more than one patch; harmless when all patches fit, because every patch but the first has its own context | PatchApplying.AddPadding, PatchApplying.PatchApply |
| third-party/diff_match_patch-stl/diff_match_patch.h:2429-2469 | text that is not 7-bit is lost | any character of 128 and more, with signed characters | the text is not 7-bit | PercentCodec.PercentRoundTrip |
| src/daemon/db_manager.cc:68-91 | an update after a rollback is replayed on the wrong version | "a" updated to "b", rolled back and saved unchanged: the revision of the head gives "b" | the head that is updated is not the last version; when it is saved unchanged, the new revision gives the last version whatever the head is | ObjectHistory.RollbackForgotten, ObjectHistory.UnchangedReplays |
| third-party/libb64/src/cdecode.c:15 | the bound in base64_decode_value is off by one | an opening brace, character 123 | exactly that character | Base64.OnlyBraceReadsPast |

Harmless on all inputs, although the comments of the code do not say why: the estimate of a quotient digit may reach DV
(jsbn.js lines 381-387), am2 exceeds the 2^31 its comment gives and stays below 2^32 (line 43), and patch_splitMax
measures the context of the next piece by the length of the one of this piece (diff_match_patch.h line 2167).

## Left out

- ModPow.ModPow: an even modulus of more than DV - 4 limbs, at least 67 million, for which the error of
  multiplyUpperTo may exceed a limb; a negative exponent whose highest limb is zero, for which the scan of a window
  that is all zeros does not end; and moduli that are not positive.
- Inverses.ModInverse: an argument that is not positive; for zero and an odd modulus the code does not end.
- Inverses.InverseBounds: the bound is not shown to be sharp; the smallest input known to fail has a product of six
  million.
- Divide.EstimateBounds: the estimate is computed over the reals; the rounding of doubles is not modelled.
- Divide.DivRemTo: a quotient object that is also the remainder.
- Barrett.MultiplyUpperTo: a second factor of more than n limbs, for which the code reads limbs before the first.
- Barrett.BarrettReduce: a modulus of more than DV - 4 limbs.
- BigIntegers.BigInteger.SetInt: arguments below -1, for which fromInt reads an undefined name.
- Reducers.Reducer.MontConvert: the shifted argument is clamped before the division, which the code does not do and
  which matters only for zero.
- RadixConversion.FromString: characters that are digits of a larger radix, and radices that are no power of two.
- DiffEngine.DiffMain: how short a diff is that the deadline has cut off, and one in line mode as a whole, which is
  not meant to be shortest; and texts with more different lines in a comparison than the character type can number
  (`Lines.LinesFit`), 127 for char.
- DiffMatchPatch.MakePatches: when several searches for overlaps do harm, the diff may have text1 again by chance; that
  it has not is stated only for a single search.
- PatchApplying.PatchApply: match_bitap and the merge of an imperfect match are parameters, so of patches applied to
  a text they were not made for only the steps are described.
- PatchText.FromText: wide characters and their UTF-16 forms; the header is read by the pattern its comment gives.
- ObjectHistory.Object.Get: what the fuzzy match makes of a diff that is replayed on another text than it was made
  from, as after a rollback.
- ObjectHistory.Recall: two revisions with the same id; the answer is then the text of the first.
- Aes.ExpandKey: the schedule is a new sequence and does not grow out of the key in place.
- Base64.DecodeBlock: char is taken to be signed.
- LruCaching.LruCache.Call: the bimap is a sequence of records in order of use.
- JSON-RPC, the HTTP server, storage back ends, the DHT, serialisation and logging.
- SHA, MD5, the random generator, RSA key handling and primality tests, which call what is modelled here or code that
  is not part of this model.
- diff_prettyHtml, diff_xIndex, diff_levenshtein and the other views of a diff, which would only add easy members.
