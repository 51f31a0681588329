# Password-cracking simulator: a verified model of its attack engine

This project models three pieces of the simulator in Dafny and proves what they promise.

1. **The single-target attack engine** (`Hash/CrackHash.py`), in `crack_hash.dfy`, `password_dictionary.dfy` and `enumeration.dfy`. It covers:
   - the charset table with its letters-and-digits fallback;
   - the `check_hash` dispatch on the lower-cased algorithm name;
   - the brute-force search over lengths 3..6 in `itertools.product` order;
   - the dictionary scan;
   - the construction of the 1000-entry `PASSWORD_DICTIONARY`.

   Both searches check the 200-second budget before each candidate and return the first match. The two search loops are methods. Each is proved equal to one specification function, `CrackHash.Search`, over the candidate list. The lemmas about `Search` state:
   - first match;
   - timeout;
   - exhaustion;
   - the error at the first verification;
   - the duration bounds.

   `Enumeration.Product` is the functional meaning of `itertools.product`. `Enumeration.Word` is the base-|charset| index expansion. The lemmas connect the two.

2. **The batch attacker of the salted-hash experiment** (`SaltedHash/test_password_cracking.py`), in `salted_attack.dfy`. It covers:
   - `get_hash`, which is MD5 of `password + salt`;
   - `dictionary_attack` and `brute_force_attack`, which record matches in a `cracked` map, count attempts and exit early once `len(cracked) == len(hashes)`;
   - `get_charset_and_name`;
   - the rule in `main` that recovers the salt from the first lines of the salted and original files.

   Both attacks are loops proved against `SaltedAttack.Cracked` and `SaltedAttack.ExitsAfter`. One lemma shows that a repeated target hash disables the early exit, so the attack then consumes its whole source.

3. **The ECDSA nonce-reuse recovery** (`PublicKey/FixedAttack.py`), in `modular.dfy` and `nonce_reuse.dfy`:
   - `pow(x, -1, n)` is modelled by the extended Euclidean algorithm. It is proved to return an inverse exactly when one exists, and, for a prime `n`, exactly when `x` is not 0 modulo `n`.
   - `NonceReuse.NonceReuseRecoversKey` proves the two assertions of the script:
     - the derived nonce is `k`;
     - the derived key is `d`.

   It holds for any prime `n` and any `d` and `k` in `[1, n)`, provided the two hashes differ modulo `n` and `r` is not 0 modulo `n`. At those boundaries the script raises: ecdsa's `sign` raises when `r` is 0 modulo `n`, and `pow` raises when the hashes agree modulo `n`. The model shows the failed inverse as `None`.

Foreign code becomes parameters:
- **Hash libraries:** MD5, SHA-256, bcrypt and argon2 are uninterpreted function values in `CrackHash.Libraries`. MD5 is `md5Hex` in `SaltedAttack`. Injectivity is never assumed.
- **Clock:** `time.time()` is `clock`. `clock(t)` is the `t`-th reading in a run, and reading 0 is `start_time`.
- **Randomness:** the random draws of `create_password_dictionary` are inputs:
  - `positionDraws`, the successive results of `random.randint(0, 999)`;
  - `fillerLength`;
  - `fillerChar`.
- **Curve point:** the curve point's `r` is the opaque function `curveR` of the nonce.

The model keeps these behaviours of the code:
- **Success duration:** in `Hash/CrackHash.py` a successful search reports an uncapped duration (lines 132-133, 193-194). Only failures are capped with `min(duration, 200)` (lines 126, 137, 185, 198).
- **Early exit:** the batch early exit is `len(cracked) == len(hashes)` (lines 44 and 69 of `SaltedHash/test_password_cracking.py`). It is equivalent to "every target cracked" only for duplicate-free target lists (`SaltedAttack.DistinctExitIffAllCracked`). With a repeated hash it never fires (`SaltedAttack.DuplicatesNeverExit`).
- **Empty target list:** an empty `hashes` list raises nothing (lines 33-82 of `SaltedHash/test_password_cracking.py`). No candidate's hash is `in hashes`, so the attacks scan the whole source and return an empty `cracked` map.
- **No clock checks:** `dictionary_attack` and `brute_force_attack` read the clock only to report `time` (lines 35, 47, 57, 70, 77). Nothing in their loops stops them on a time budget.

## Model

| member | source | states |
|---|---|---|
| CrackHash.CheckHash | Hash/CrackHash.py:88-115 | the nested `check_hash`: it raises `UnsupportedAlgorithm(algorithm)` exactly when the lower-cased name is not md5, sha256, bcrypt or argon2; each branch's comparison is stated by `CheckHashDispatch`, `SlowHashFoldsFailures` and `CheckHashIgnoresCase` |
| CrackHash.CharsetFor | Hash/CrackHash.py:75-82 | the charset chosen for any name is non-empty and free of duplicates |
| CrackHash.CharsetTable | Hash/CrackHash.py:75-82 | "numeric", "lowercase", "lowercase_numeric" and "full_alphabetic" give digits, lower-case letters, lower-case letters then digits, and letters; every other name gives letters then digits (no error); the sizes are 10, 26, 36, 52 or 62 |
| CrackHash.CheckHashDispatch | Hash/CrackHash.py:88-115 | `check_hash` raises exactly when the lower-cased name is none of md5, sha256, bcrypt, argon2, for every candidate; md5 and sha256 compare the hex digest with the target; bcrypt and argon2 are true exactly on a Match verdict |
| CrackHash.SlowHashFoldsFailures | Hash/CrackHash.py:95-112 | for bcrypt and argon2 a mismatch and a malformed-hash `ValueError` both give False and never an error |
| CrackHash.CheckHashIgnoresCase | Hash/CrackHash.py:89-102 | an algorithm name and its lower-cased form are supported alike and verify alike |
| CrackHash.Search | Hash/CrackHash.py:117-137 | the shared search: an error only for an unsupported name; a failure has no password and a duration of at most 200; a success names a candidate from the remaining list for which `check_hash` holds |
| CrackHash.TryLength | Hash/CrackHash.py:122-133 | one pass over the tuples of one length returns what `Search` returns from its first position, or hands `Search` on unchanged to the first position of the next length |
| CrackHash.SearchLengths | Hash/CrackHash.py:118-137 | the length loop over the blocks of a candidate list returns exactly `Search` of that list from position 0, including the capped failure after the last length |
| CrackHash.CrackPasswordBf | Hash/CrackHash.py:60-137 | `crack_password_bf` returns exactly `Search` over the lengths 3..6 of `itertools.product` of the chosen charset |
| CrackHash.CrackPasswordDict | Hash/CrackHash.py:177-198 | `crack_password_dict` returns exactly `Search` over the dictionary in index order |
| CrackHash.SkipContinuing | Hash/CrackHash.py:122-133 | candidates that pass the budget check and do not verify do not change the search's result |
| CrackHash.FirstMatchReturned | Hash/CrackHash.py:131-133 | when candidate `i` is the first that verifies and all budget checks up to it pass, the search returns `(True, clock after it - start, cands[i])`, uncapped |
| CrackHash.SuccessIsFirstMatch | Hash/CrackHash.py:124-133 | conversely, every success is such a first match: the returned candidate verifies, passed its budget check, and every earlier candidate passed its check and did not verify |
| CrackHash.TimeoutStopsSearch | Hash/CrackHash.py:124-126 | when the check before candidate `i` exceeds 200 seconds, that candidate is not verified and the result is `(False, min(duration, 200), None)`; with a monotone clock the duration is exactly 200 |
| CrackHash.ExhaustedSearchFails | Hash/CrackHash.py:135-137 | when no candidate verifies within the budget, the result is `(False, min(final duration, 200), None)` |
| CrackHash.UnsupportedRaisesAtFirstCandidate | Hash/CrackHash.py:84-124 | an unsupported name raises at the first verification, after `start_time` is taken, unless the first budget check already fails |
| CrackHash.DurationNonNegative | Hash/CrackHash.py:124-137 | with a non-decreasing clock every reported duration is at least 0 |
| CrackHash.BruteForceOrder | Hash/CrackHash.py:118-128 | within length `len`, the `i`-th candidate sits after all shorter ones, at position `i` plus the sum of `k^L` for `3 <= L < len` (`k` the charset size), and is the base-`k` expansion of `i` with the last position varying fastest, which is the `i`-th tuple of `itertools.product` |
| CrackHash.BruteForceCount | Hash/CrackHash.py:118-122 | brute force tries `k^3 + k^4 + k^5 + k^6` candidates, `k` the charset size, and never the same one twice |
| CrackHash.NumericOrderExample | Hash/CrackHash.py:76-128 | with the numeric charset "000" is the first candidate and "123" the 124th |
| Enumeration.Product | Hash/CrackHash.py:122 | the reference list of `itertools.product(cs, repeat=len)` (its recursive definition); its length, order and distinctness are stated by `ProductLength`, `ProductAt`, `ProductDistinct` and `ProductLengths` |
| Enumeration.Word | Hash/CrackHash.py:122-128 | the `i`-th tuple as the `len`-digit base-`k` expansion of `i` (`k` the size of `cs`); it has length `len`; `ProductAt` proves it is the `i`-th product tuple and `WordInjective` that different indices give different words |
| Enumeration.ProductLength | Hash/CrackHash.py:122 | `itertools.product(cs, repeat=len)` yields exactly `k^len` tuples, `k` the size of `cs` |
| Enumeration.ProductAt | Hash/CrackHash.py:122 | its `i`-th tuple is `i` written in base `k`, most significant digit first |
| Enumeration.ProductDistinct | Hash/CrackHash.py:122 | over a duplicate-free charset no tuple repeats |
| Enumeration.ProductLengths | Hash/CrackHash.py:122 | every tuple has length `len` |
| Enumeration.CandidatesLength | Hash/CrackHash.py:118-122 | the candidates of lengths `lo..hi` number the sum of `k^L` over those lengths, `k` the size of `cs` |
| Enumeration.CandidatesLengths | Hash/CrackHash.py:118-122 | every candidate of lengths `lo..hi` has a length in that range |
| Enumeration.CandidatesSplit | Hash/CrackHash.py:118-122 | the lengths of a range are tried as its lower part followed by its upper part |
| Enumeration.CandidatesAt | Hash/CrackHash.py:118-122 | the `i`-th tuple of length `len` is at position `i` plus the sum of `k^L` for `lo <= L < len` |
| Enumeration.WordAt | Hash/CrackHash.py:118-128 | at that position stands the base-`k` expansion of `i` |
| Enumeration.CandidatesBlocks | Hash/CrackHash.py:118-122 | the candidate list is laid out as one block per length, each in product order |
| Enumeration.CandidatesDistinct | Hash/CrackHash.py:118-122 | over a duplicate-free charset no brute-force candidate is tried twice |
| Enumeration.WordInjective | Hash/CrackHash.py:122 | different indices below `k^len` (`k` the size of `cs`) give different tuples over a duplicate-free charset |
| PasswordDictionary.FirstDistinct | Hash/CrackHash.py:39-45 | the positions the retry loops keep are the distinct draws in the order first drawn: duplicate-free, the same values as the draws |
| PasswordDictionary.DrawFreePosition | Hash/CrackHash.py:40-45 | the `while True` loop returns the first drawn position not yet used, which extends the kept positions by one, or runs out of draws |
| PasswordDictionary.PlaceWords | Hash/CrackHash.py:39-45 | each target word is written at its own kept position, which are the first 16 distinct draws, all in `0..999` |
| PasswordDictionary.CreatePasswordDictionary | Hash/CrackHash.py:10-54 | the result has exactly 1000 entries; the 16 target words stand at 16 distinct positions, and every other index holds its filler |
| PasswordDictionary.Filler | Hash/CrackHash.py:50-52 | the filler for index `i`: `fillerLength(i)` characters drawn from the filler alphabet; `FillerShape` states its length 3..8 and its characters, `FillerCanRepeatTarget` that it can equal a target word |
| PasswordDictionary.FillerShape | Hash/CrackHash.py:48-52 | every filler has 3..8 characters, each a lower-case letter or digit |
| PasswordDictionary.FillerCanRepeatTarget | Hash/CrackHash.py:17-52 | a filler can equal a target word ("123"), so fillers are not guaranteed to differ from the targets |
| SaltedAttack.GetHash | SaltedHash/test_password_cracking.py:28-31 | `get_hash`, the MD5 hex digest of `password + salt`; `GetHashAppendsSalt` states the appending and the plain digest for the empty salt |
| SaltedAttack.GetHashAppendsSalt | SaltedHash/test_password_cracking.py:28-31 | `get_hash` digests `password + salt`, and the empty default salt gives the plain digest |
| SaltedAttack.Cracked | SaltedHash/test_password_cracking.py:39-43 | every entry `h -> w` of `cracked` has `h` among the target hashes and `get_hash(w, salt) == h` |
| SaltedAttack.ScanStep | SaltedHash/test_password_cracking.py:41-45 | one candidate adds `hash -> word` exactly on a match, and the exit fires after it exactly when it matched and `len(cracked) == len(hashes)` |
| SaltedAttack.DictionaryAttack | SaltedHash/test_password_cracking.py:33-53 | the attack tries a prefix of the dictionary, stops only at the first early exit or the end, counts every word tried, and returns the map of that prefix |
| SaltedAttack.ScanLength | SaltedHash/test_password_cracking.py:62-75 | one pass over the tuples of one length either exits right after the first candidate that fills the map or tries all `k^length` of them (`k` the charset size), with the map and count of the candidates tried |
| SaltedAttack.BruteForceAttack | SaltedHash/test_password_cracking.py:55-82 | the same for lengths 1..max_length in product order: either all candidates (the sum of `k^L` for `1 <= L <= max_length`) are tried or the attack stops at the first early exit |
| SaltedAttack.ElementsSize | SaltedHash/test_password_cracking.py:44 | a list has at most as many distinct elements as entries, exactly as many iff it has no duplicate |
| SaltedAttack.CrackedKeys | SaltedHash/test_password_cracking.py:41-43 | a target hash is a key of `cracked` iff some tried word has it, and it maps to the last such word |
| SaltedAttack.CrackedSize | SaltedHash/test_password_cracking.py:43-44 | `cracked` never has more entries than there are distinct target hashes |
| SaltedAttack.DuplicatesNeverExit | SaltedHash/test_password_cracking.py:44-45 | with a repeated target hash the early exit never fires |
| SaltedAttack.DuplicatesScanAll | SaltedHash/test_password_cracking.py:39-45 | so then the attack consumes its whole source and returns the map of all of it |
| SaltedAttack.DistinctCrackedAll | SaltedHash/test_password_cracking.py:44 | for distinct target hashes, `len(cracked) == len(hashes)` holds exactly when every target is a key |
| SaltedAttack.DistinctExitIffAllCracked | SaltedHash/test_password_cracking.py:67-69 | for distinct target hashes the exit fires right after a word exactly when it matched and every target is then cracked |
| SaltedAttack.DictionaryAttempts | SaltedHash/test_password_cracking.py:39-45 | `attempts` never exceeds the dictionary size, and stopping short means the early exit fired |
| SaltedAttack.BruteForceFullCount | SaltedHash/test_password_cracking.py:61-63 | with a repeated target hash brute force makes exactly the sum of `k^L` for `1 <= L <= max_length` attempts |
| SaltedAttack.CountClosedForm | SaltedHash/test_password_cracking.py:61-63 | that count times `k - 1` is `k^(max_length+1) - k` |
| SaltedAttack.GetCharsetAndName | SaltedHash/test_password_cracking.py:127-138 | every charset returned is non-empty and duplicate-free, and the name is "Unknown" exactly for a type outside the four known ones |
| SaltedAttack.CharsetAndNameTable | SaltedHash/test_password_cracking.py:127-138 | the four known types give their alphabets (52, 26, 62 and 94 characters) and display names; any other type gives the lower-case letters with "Unknown" |
| SaltedAttack.DeriveSalt | SaltedHash/test_password_cracking.py:172-190 | a missing file gives "salt"; a salted line that starts with the original line gives the rest of it; any other gives "salt" |
| SaltedAttack.DeriveSaltRoundTrip | SaltedHash/test_password_cracking.py:181-182 | a line salted by appending is unsalted by the rule: it recovers exactly the appended salt |
| SaltedAttack.DeriveSaltEmptyOriginal | SaltedHash/test_password_cracking.py:181-182 | an empty original line makes the whole salted line the salt |
| Alphabets.PrintableDistinct | SaltedHash/test_password_cracking.py:136 | letters, digits and punctuation together are 94 distinct characters |
| Alphabets.LettersDigitsDistinct | Hash/CrackHash.py:82 | letters then digits are 62 distinct characters |
| Alphabets.Lower | Hash/CrackHash.py:89 | `algorithm.lower()`: same length, each character mapped by `LowerChar` (ASCII upper-case letters to lower case, everything else unchanged); `LowerIdempotent` and `CheckHashIgnoresCase` build on it |
| Alphabets.LowerIdempotent | Hash/CrackHash.py:89 | lower-casing twice is lower-casing once |
| Modular.Egcd | PublicKey/FixedAttack.py:40 | the extended Euclidean algorithm returns a common divisor of `a` and `b` with Bezout coefficients |
| Modular.ModInverse | PublicKey/FixedAttack.py:40 | `pow(x, -1, n)`: a result lies in `[0, n)` and inverts `x` modulo `n`; no result means no inverse exists |
| Modular.InverseExistsIffNonzero | PublicKey/FixedAttack.py:40 | modulo a prime, `pow(x, -1, n)` succeeds exactly when `x` is not 0 modulo `n` |
| Modular.InverseCancels | PublicKey/FixedAttack.py:40 | multiplying by an inverse cancels the factor it inverts |
| NonceReuse.NonceInverse | PublicKey/FixedAttack.py:22-33 | a nonce in `[1, n)` has an inverse modulo the prime `n` |
| NonceReuse.Sign | PublicKey/FixedAttack.py:33-35 | a signature carries the curve's `r` for the nonce and an `s` in `[0, n)` with `k * s == h + r * d (mod n)` |
| NonceReuse.SameNonceSameR | PublicKey/FixedAttack.py:34-35 | both signatures made with one nonce carry the same `r` |
| NonceReuse.NonceEquation | PublicKey/FixedAttack.py:37-38 | the two signing equations subtract to `k * (s1 - s2) == h1 - h2 (mod n)` |
| NonceReuse.CancelNonzero | PublicKey/FixedAttack.py:40 | modulo a prime, a non-zero factor does not make a product vanish |
| NonceReuse.RecoverNonce | PublicKey/FixedAttack.py:40 | a derived nonce lies in `[0, n)` and solves `k * (s1 - s2) == h1 - h2 (mod n)` |
| NonceReuse.RecoverKey | PublicKey/FixedAttack.py:45 | a derived key lies in `[0, n)` and solves `r * d == s1 * k - h1 (mod n)` |
| NonceReuse.NonceRecovered | PublicKey/FixedAttack.py:40-42 | the nonce derivation yields exactly `k`, and fails exactly when the two hashes agree modulo `n` |
| NonceReuse.KeyRecovered | PublicKey/FixedAttack.py:45-47 | with the true nonce, the key derivation yields exactly `d`, and fails exactly when `r` is 0 modulo `n` |
| NonceReuse.NonceReuseRecoversKey | PublicKey/FixedAttack.py:15-47 | for `d` and `k` in `[1, n)`, hashes that differ modulo `n` and an `r` that is not 0, the derived nonce is `k` and the derived key is `d`: both assertions of the script hold |

## Left out

- **Hash libraries:** MD5, SHA-256, bcrypt and argon2 are uninterpreted, so their cost parameters are not modelled (`Hash/CrackHash.py:103-107` and `167`). The same goes for the string encoding before hashing and any exception they raise other than the ones `check_hash` catches.
- **Clock:** wall-clock times are floats in the source. The model reads them as natural numbers from `clock`, so floating-point rounding of durations is not modelled.
- **Output:** `print` progress output is not modelled.
- **Dictionary constant:** `PASSWORD_DICTIONARY` is built once at import time. `CrackHash.CrackPasswordDict` takes it as a parameter, and `PasswordDictionary.CreatePasswordDictionary` gives its shape.
- PasswordDictionary.CreatePasswordDictionary: returns `None` when the finite sequence of supplied position draws runs out before 16 distinct positions are drawn. The source's loop keeps drawing and, with a real random source, ends with probability 1. Termination on the infinite random stream is not modelled.
- **Random module:** the random draws are inputs, so the `random` module and its distribution are left out.
- SaltedAttack.DictionaryAttack: the `time` entry of the returned dictionary is not modelled. The same holds for `SaltedAttack.BruteForceAttack`.
- **Elapsed time:** the model has no elapsed-time field in the result.
- **File reading:** `read_password_file`, `read_dictionary` and all file handling are not modelled, including `strip()` and the exact `FileNotFoundError` versus bare `except` split. `SaltedAttack.DeriveSalt` takes the two first lines as `Option` values, where `None` stands for a file that cannot be read.
- **Salt path:** the salt file path formed at `SaltedHash/test_password_cracking.py:174` is not modelled. It puts the directory prefix before a path that already has it.
- **Plotting and main:** plotting, `main`'s loop over charset types, and the fallback dictionary built at line 199 are not modelled.
- Alphabets.Lower: models `str.lower()` on ASCII letters only. The algorithm names it is applied to are ASCII, and Unicode case mapping is not modelled.
- NonceReuse.Sign: the ecdsa library's signing raises an error when `r` or `s` comes out as 0. The model always returns the signature. It also stands for the library's `h + (d * r) % n` by `h + r * d`, which is the same modulo `n`.
- Modular.ModInverse: requires a positive modulus. Python's `pow(x, -1, n)` also accepts negative moduli, which the script never uses.
- **Elliptic-curve arithmetic:** point arithmetic and key objects are not modelled. `r` is the opaque `curveR(k)`, `n` is any prime, and the hashes are arbitrary integers.
- **Other files:** `Hash/main.py`, `Hash/HashString.py`, `SaltedHash/generate_passwords.py` and `PublicKey/PKCryptoBenchmarking.py` are not part of this model.
