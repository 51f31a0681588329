/**
 * The single-target attack engine: the charset table, the verification
 * dispatch on a case-insensitive algorithm name, and the two searches, brute
 * force over lengths 3..6 and a scan of the password dictionary, each with a
 * per-candidate 200-second budget and a first-match return.
 *
 * The hash libraries are the function values of `Libraries`, left
 * uninterpreted. The wall clock is `clock`: `clock(t)` is the value of the
 * `t`-th call of `time.time()` in one run, the first (number 0) being
 * `start_time`.
 */
module CrackHash {
  import opened Wrappers
  import opened Alphabets
  import opened Enumeration

  /** The shortest and longest brute-force candidate. */
  const MinLength: nat := 3
  const MaxLength: nat := 6

  /** Seconds a search may run before it gives up. */
  const TimeLimit: int := 200

  /**
   * What a verification primitive reports: the candidate matches, it does not
   * (bcrypt returns False, argon2 raises VerifyMismatchError), or the target
   * hash is malformed (ValueError, of which argon2's InvalidHashError is one).
   */
  datatype Verdict = Match | Mismatch | Invalid

  /** The foreign hash functions, treated as uninterpreted. */
  datatype Libraries = Libraries(
    md5Hex: string -> string,                 // hashlib.md5(p.encode()).hexdigest()
    sha256Hex: string -> string,              // hashlib.sha256(p.encode()).hexdigest()
    bcryptCheckpw: (string, string) -> Verdict, // bcrypt.checkpw(password, hash)
    argon2Verify: (string, string) -> Verdict)  // PasswordHasher.verify(hash, password)

  /** The exception `check_hash` raises for a name it does not know. */
  datatype Error = UnsupportedAlgorithm(name: string)

  /** A search's return tuple `(success, duration, password)`. */
  datatype Outcome = Outcome(success: bool, duration: int, password: Option<string>)

  const KnownAlgorithms: set<string> := {"md5", "sha256", "bcrypt", "argon2"}

  predicate Supported(algorithm: string) {
    Lower(algorithm) in KnownAlgorithms
  }

  function Min(a: int, b: int): int {
    if a <= b then a else b
  }

  /** `charset_map.get(known_charset, ascii_letters + digits)`. */
  function CharsetFor(knownCharset: string): (charset: string)
    ensures |charset| > 0 && Distinct(charset)
  {
    DigitsFacts();
    LowercaseFacts();
    LowercaseDigitsDistinct();
    LettersDistinct();
    LettersDigitsDistinct();
    if knownCharset == "numeric" then Digits
    else if knownCharset == "lowercase" then AsciiLowercase
    else if knownCharset == "lowercase_numeric" then AsciiLowercase + Digits
    else if knownCharset == "full_alphabetic" then AsciiLetters
    else AsciiLetters + Digits
  }

  /** The nested `check_hash(password_attempt)` of both searches. */
  function CheckHash(libs: Libraries, algorithm: string, target: string, attempt: string): (r: Result<bool, Error>)
    ensures r.Err? <==> !Supported(algorithm)
    ensures r.Err? ==> r.error == UnsupportedAlgorithm(algorithm)
  {
    var alg := Lower(algorithm);
    if alg == "md5" then Ok(libs.md5Hex(attempt) == target)
    else if alg == "sha256" then Ok(libs.sha256Hex(attempt) == target)
    else if alg == "bcrypt" then Ok(libs.bcryptCheckpw(attempt, target) == Match)
    else if alg == "argon2" then Ok(libs.argon2Verify(target, attempt) == Match)
    else Err(UnsupportedAlgorithm(algorithm))
  }

  /** Whether the budget check before candidate `pos` lets it through: `time.time() - start_time > 200` is false. */
  predicate WithinBudget(clock: nat -> nat, pos: nat) {
    clock(1 + pos) - clock(0) <= TimeLimit
  }

  /** Candidate `pos` passes the budget check and is verified as a non-match, so the search goes on. */
  predicate Continues(libs: Libraries, algorithm: string, target: string, cands: seq<string>, clock: nat -> nat, pos: nat)
    requires pos < |cands|
  {
    WithinBudget(clock, pos) && CheckHash(libs, algorithm, target, cands[pos]) == Ok(false)
  }

  ghost predicate Monotone(clock: nat -> nat) {
    forall t, u :: t <= u ==> clock(t) <= clock(u)
  }

  /**
   * The result of the shared search loop from candidate `pos` on, when every
   * earlier candidate continued the search. Before candidate `pos` the clock
   * has been read `1 + pos` times; a timeout or a match reads it once more
   * for the duration, as does the end of the candidates.
   */
  function Search(libs: Libraries, algorithm: string, target: string, cands: seq<string>, clock: nat -> nat, pos: nat)
    : (r: Result<Outcome, Error>)
    requires pos <= |cands|
    ensures r.Err? ==> !Supported(algorithm) && r.error == UnsupportedAlgorithm(algorithm)
    ensures r.Ok? && !r.value.success ==> r.value.password == None && r.value.duration <= TimeLimit
    ensures r.Ok? && r.value.success ==>
      r.value.password.Some? && r.value.password.value in cands[pos..] &&
      CheckHash(libs, algorithm, target, r.value.password.value) == Ok(true)
    decreases |cands| - pos
  {
    var start := clock(0);
    if pos == |cands| then
      Ok(Outcome(false, Min(clock(1 + pos) - start, TimeLimit), None))
    else if clock(1 + pos) - start > TimeLimit then
      Ok(Outcome(false, Min(clock(2 + pos) - start, TimeLimit), None))
    else
      match CheckHash(libs, algorithm, target, cands[pos])
      case Err(e) => Err(e)
      case Ok(true) => Ok(Outcome(true, clock(2 + pos) - start, Some(cands[pos])))
      case Ok(false) =>
        var rest := Search(libs, algorithm, target, cands, clock, pos + 1);
        assert cands[pos..] == [cands[pos]] + cands[pos + 1..];
        rest
  }

  /**
   * One pass of the `itertools.product(charset, repeat=length)` loop, trying
   * candidates `pos0 ..` of `cands`. `stopped` when it returned (timeout,
   * match or error) with `r`; otherwise `pos` is the first candidate of the
   * next length and `r` is a placeholder that carries no meaning.
   */
  method TryLength(libs: Libraries, hashedPassword: string, algorithm: string, charset: string, length: nat,
                   clock: nat -> nat, start: int, pos0: nat, ghost cands: seq<string>)
    returns (stopped: bool, r: Result<Outcome, Error>, pos: nat)
    requires |charset| > 0 && start == clock(0)
    requires pos0 + Pow(|charset|, length) <= |cands|
    requires forall i :: 0 <= i < Pow(|charset|, length) ==> |charset| > 0 && cands[pos0 + i] == Word(charset, length, i)
    ensures stopped ==> r == Search(libs, algorithm, hashedPassword, cands, clock, pos0)
    ensures !stopped ==> pos == pos0 + Pow(|charset|, length)
    ensures !stopped ==> Search(libs, algorithm, hashedPassword, cands, clock, pos0) ==
                         Search(libs, algorithm, hashedPassword, cands, clock, pos)
  {
    pos := pos0;
    r := Err(UnsupportedAlgorithm(algorithm)); // placeholder, only read when `stopped`
    var total := Pow(|charset|, length);
    for i := 0 to total
      invariant pos == pos0 + i
      invariant Search(libs, algorithm, hashedPassword, cands, clock, pos0) ==
                Search(libs, algorithm, hashedPassword, cands, clock, pos)
    {
      if clock(1 + pos) - start > TimeLimit {
        var duration := clock(2 + pos) - start;
        return true, Ok(Outcome(false, Min(duration, TimeLimit), None)), pos;
      }
      var attempt := Word(charset, length, i);
      var verified := CheckHash(libs, algorithm, hashedPassword, attempt);
      if verified.Err? {
        return true, Err(verified.error), pos;
      }
      if verified.value {
        var duration := clock(2 + pos) - start;
        return true, Ok(Outcome(true, duration, Some(attempt))), pos;
      }
      pos := pos + 1;
    }
    stopped := false;
  }

  /**
   * The loops of `crack_password_bf` over the lengths `lo..hi`, after the
   * charset has been chosen and `start_time` taken, trying `cands`.
   */
  method SearchLengths(libs: Libraries, hashedPassword: string, algorithm: string, charset: string,
                       lo: nat, hi: nat, clock: nat -> nat, ghost cands: seq<string>)
    returns (r: Result<Outcome, Error>)
    requires |charset| > 0 && lo <= hi + 1 && Blocks(charset, lo, hi, cands)
    ensures r == Search(libs, algorithm, hashedPassword, cands, clock, 0)
  {
    var start := clock(0);
    var pos := 0;   // candidates tried so far; the clock has been read 1 + pos times
    for length := lo to hi + 1
      invariant pos == Count(|charset|, lo, length - 1) <= |cands|
      invariant Search(libs, algorithm, hashedPassword, cands, clock, 0) ==
                Search(libs, algorithm, hashedPassword, cands, clock, pos)
    {
      CountSnoc(|charset|, lo, length);
      assert HasBlock(charset, lo, length, cands);
      var stopped, res, next := TryLength(libs, hashedPassword, algorithm, charset, length, clock, start, pos, cands);
      if stopped {
        return res;
      }
      pos := next;
    }
    var duration := clock(1 + pos) - start;
    return Ok(Outcome(false, Min(duration, TimeLimit), None));
  }

  /** `crack_password_bf`. */
  method CrackPasswordBf(libs: Libraries, hashedPassword: string, algorithm: string, knownCharset: string, clock: nat -> nat)
    returns (r: Result<Outcome, Error>)
    ensures r == Search(libs, algorithm, hashedPassword, BruteForceCandidates(knownCharset), clock, 0)
  {
    var charset := CharsetFor(knownCharset);
    CandidatesBlocks(charset, MinLength, MaxLength);
    r := SearchLengths(libs, hashedPassword, algorithm, charset, MinLength, MaxLength, clock,
                       Candidates(charset, MinLength, MaxLength));
  }

  /** The brute-force candidates for a charset name: every length 3..6 in itertools.product order. */
  function BruteForceCandidates(knownCharset: string): seq<string> {
    Candidates(CharsetFor(knownCharset), MinLength, MaxLength)
  }

  /** `crack_password_dict`, with `dictionary` the value of `PASSWORD_DICTIONARY`. */
  method CrackPasswordDict(libs: Libraries, dictionary: seq<string>, hashedPassword: string, algorithm: string, clock: nat -> nat)
    returns (r: Result<Outcome, Error>)
    ensures r == Search(libs, algorithm, hashedPassword, dictionary, clock, 0)
  {
    var start := clock(0);
    for i := 0 to |dictionary|
      invariant Search(libs, algorithm, hashedPassword, dictionary, clock, 0) ==
                Search(libs, algorithm, hashedPassword, dictionary, clock, i)
    {
      if clock(1 + i) - start > TimeLimit {
        var duration := clock(2 + i) - start;
        return Ok(Outcome(false, Min(duration, TimeLimit), None));
      }
      var passwordAttempt := dictionary[i];
      var verified := CheckHash(libs, algorithm, hashedPassword, passwordAttempt);
      if verified.Err? {
        return Err(verified.error);
      }
      if verified.value {
        var duration := clock(2 + i) - start;
        return Ok(Outcome(true, duration, Some(passwordAttempt)));
      }
    }
    var duration := clock(1 + |dictionary|) - start;
    return Ok(Outcome(false, Min(duration, TimeLimit), None));
  }

  // ---------------------------------------------------------------------
  // The charset table and the verification dispatch

  /** The four known category names and the letters+digits fallback, which is never an error. */
  lemma CharsetTable(knownCharset: string)
    ensures CharsetFor("numeric") == Digits
    ensures CharsetFor("lowercase") == AsciiLowercase
    ensures CharsetFor("lowercase_numeric") == AsciiLowercase + Digits
    ensures CharsetFor("full_alphabetic") == AsciiLetters
    ensures knownCharset !in {"numeric", "lowercase", "lowercase_numeric", "full_alphabetic"} ==>
      CharsetFor(knownCharset) == AsciiLetters + Digits
    ensures |CharsetFor(knownCharset)| in {10, 26, 36, 52, 62}
  {
    DigitsFacts();
    LowercaseDigitsDistinct();
    LettersDistinct();
    LettersDigitsDistinct();
  }

  /**
   * `check_hash` raises exactly for an unsupported name, whatever the
   * candidate; a supported name compares the digest, or folds bcrypt's and
   * argon2's mismatch and malformed-hash outcomes into False.
   */
  lemma CheckHashDispatch(libs: Libraries, algorithm: string, target: string, attempt: string)
    ensures CheckHash(libs, algorithm, target, attempt).Err? <==> !Supported(algorithm)
    ensures Lower(algorithm) == "md5" ==>
      CheckHash(libs, algorithm, target, attempt) == Ok(libs.md5Hex(attempt) == target)
    ensures Lower(algorithm) == "sha256" ==>
      CheckHash(libs, algorithm, target, attempt) == Ok(libs.sha256Hex(attempt) == target)
    ensures Lower(algorithm) == "bcrypt" ==>
      CheckHash(libs, algorithm, target, attempt) == Ok(libs.bcryptCheckpw(attempt, target) == Match)
    ensures Lower(algorithm) == "argon2" ==>
      CheckHash(libs, algorithm, target, attempt) == Ok(libs.argon2Verify(target, attempt) == Match)
  {
  }

  /** Only a Match verdict is a match: Mismatch and Invalid (ValueError) both give False, never an error. */
  lemma SlowHashFoldsFailures(libs: Libraries, algorithm: string, target: string, attempt: string)
    requires Lower(algorithm) in {"bcrypt", "argon2"}
    ensures CheckHash(libs, algorithm, target, attempt).Ok?
    ensures CheckHash(libs, algorithm, target, attempt).value <==>
      (if Lower(algorithm) == "bcrypt" then libs.bcryptCheckpw(attempt, target)
       else libs.argon2Verify(target, attempt)) == Match
  {
  }

  /** The algorithm name is matched case-insensitively: its lower-cased form verifies the same way. */
  lemma CheckHashIgnoresCase(libs: Libraries, algorithm: string, target: string, attempt: string)
    ensures Supported(Lower(algorithm)) <==> Supported(algorithm)
    ensures Supported(algorithm) ==>
      CheckHash(libs, Lower(algorithm), target, attempt) == CheckHash(libs, algorithm, target, attempt)
  {
    LowerIdempotent(algorithm);
  }

  // ---------------------------------------------------------------------
  // The search: order, first match, budget

  /** Candidates that continue the search can be skipped. */
  lemma {:induction false} SkipContinuing(libs: Libraries, algorithm: string, target: string, cands: seq<string>,
                                          clock: nat -> nat, pos: nat, i: nat)
    requires pos <= i <= |cands|
    requires forall j :: pos <= j < i ==> Continues(libs, algorithm, target, cands, clock, j)
    ensures Search(libs, algorithm, target, cands, clock, pos) == Search(libs, algorithm, target, cands, clock, i)
    decreases i - pos
  {
    if pos < i {
      assert Continues(libs, algorithm, target, cands, clock, pos);
      SkipContinuing(libs, algorithm, target, cands, clock, pos + 1, i);
    }
  }

  /**
   * First match: when candidate `i` is the first one that verifies and every
   * candidate up to it passed the budget check, the search returns it, with
   * the clock read after its verification as the (uncapped) duration.
   */
  lemma FirstMatchReturned(libs: Libraries, algorithm: string, target: string, cands: seq<string>, clock: nat -> nat, i: nat)
    requires i < |cands|
    requires forall j :: 0 <= j < i ==> Continues(libs, algorithm, target, cands, clock, j)
    requires WithinBudget(clock, i) && CheckHash(libs, algorithm, target, cands[i]) == Ok(true)
    ensures Search(libs, algorithm, target, cands, clock, 0) ==
            Ok(Outcome(true, clock(2 + i) - clock(0), Some(cands[i])))
  {
    SkipContinuing(libs, algorithm, target, cands, clock, 0, i);
  }

  /**
   * Budget: when the check before candidate `i` finds more than 200 seconds
   * elapsed, candidate `i` is not verified and the search fails with the
   * duration capped at 200; with a monotone clock the duration is exactly 200.
   */
  lemma TimeoutStopsSearch(libs: Libraries, algorithm: string, target: string, cands: seq<string>, clock: nat -> nat, i: nat)
    requires i < |cands|
    requires forall j :: 0 <= j < i ==> Continues(libs, algorithm, target, cands, clock, j)
    requires !WithinBudget(clock, i)
    ensures Search(libs, algorithm, target, cands, clock, 0) ==
            Ok(Outcome(false, Min(clock(2 + i) - clock(0), TimeLimit), None))
    ensures Monotone(clock) ==> Search(libs, algorithm, target, cands, clock, 0) == Ok(Outcome(false, TimeLimit, None))
  {
    SkipContinuing(libs, algorithm, target, cands, clock, 0, i);
    if Monotone(clock) {
      assert clock(1 + i) <= clock(2 + i);
    }
  }

  /** Exhaustion: when no candidate verifies within the budget, the search fails with the final duration capped at 200. */
  lemma ExhaustedSearchFails(libs: Libraries, algorithm: string, target: string, cands: seq<string>, clock: nat -> nat)
    requires forall j :: 0 <= j < |cands| ==> Continues(libs, algorithm, target, cands, clock, j)
    ensures Search(libs, algorithm, target, cands, clock, 0) ==
            Ok(Outcome(false, Min(clock(1 + |cands|) - clock(0), TimeLimit), None))
  {
    SkipContinuing(libs, algorithm, target, cands, clock, 0, |cands|);
  }

  /**
   * An unsupported algorithm raises at the first verification, after
   * `start_time` has been taken and the first budget check has passed; only
   * a clock that has already run past the budget returns a failure instead.
   */
  lemma UnsupportedRaisesAtFirstCandidate(libs: Libraries, algorithm: string, target: string, cands: seq<string>, clock: nat -> nat)
    requires !Supported(algorithm) && |cands| > 0
    ensures Search(libs, algorithm, target, cands, clock, 0) ==
            if WithinBudget(clock, 0) then Err(UnsupportedAlgorithm(algorithm))
            else Ok(Outcome(false, Min(clock(2) - clock(0), TimeLimit), None))
  {
    CheckHashDispatch(libs, algorithm, target, cands[0]);
  }

  /**
   * The converse of FirstMatchReturned: a successful search names a
   * candidate `i` that verifies, passed its budget check, and is preceded
   * only by candidates that passed theirs and did not verify.
   */
  lemma {:induction false} SuccessIsFirstMatch(libs: Libraries, algorithm: string, target: string, cands: seq<string>,
                                               clock: nat -> nat, pos: nat)
    requires pos <= |cands|
    requires Search(libs, algorithm, target, cands, clock, pos).Ok?
    requires Search(libs, algorithm, target, cands, clock, pos).value.success
    ensures exists i :: (
      && pos <= i < |cands|
      && (forall j :: pos <= j < i ==> Continues(libs, algorithm, target, cands, clock, j))
      && WithinBudget(clock, i) && CheckHash(libs, algorithm, target, cands[i]) == Ok(true)
      && Search(libs, algorithm, target, cands, clock, pos) == Ok(Outcome(true, clock(2 + i) - clock(0), Some(cands[i]))))
    decreases |cands| - pos
  {
    if CheckHash(libs, algorithm, target, cands[pos]) == Ok(false) {
      SuccessIsFirstMatch(libs, algorithm, target, cands, clock, pos + 1);
      var i :| pos + 1 <= i < |cands| &&
        (forall j :: pos + 1 <= j < i ==> Continues(libs, algorithm, target, cands, clock, j)) &&
        WithinBudget(clock, i) && CheckHash(libs, algorithm, target, cands[i]) == Ok(true) &&
        Search(libs, algorithm, target, cands, clock, pos + 1) == Ok(Outcome(true, clock(2 + i) - clock(0), Some(cands[i])));
      assert Continues(libs, algorithm, target, cands, clock, pos);
    } else {
      assert WithinBudget(clock, pos);
    }
  }

  /** With a monotone clock every reported duration is non-negative. */
  lemma {:induction false} DurationNonNegative(libs: Libraries, algorithm: string, target: string, cands: seq<string>,
                                               clock: nat -> nat, pos: nat)
    requires pos <= |cands| && Monotone(clock)
    requires Search(libs, algorithm, target, cands, clock, pos).Ok?
    ensures Search(libs, algorithm, target, cands, clock, pos).value.duration >= 0
    decreases |cands| - pos
  {
    assert clock(0) <= clock(1 + pos) <= clock(2 + pos);
    if pos < |cands| && clock(1 + pos) - clock(0) <= TimeLimit
       && CheckHash(libs, algorithm, target, cands[pos]) == Ok(false) {
      DurationNonNegative(libs, algorithm, target, cands, clock, pos + 1);
    }
  }

  // ---------------------------------------------------------------------
  // The brute-force candidate order

  /**
   * Brute force tries lengths 3, 4, 5, 6 in ascending order; within length
   * `len` its `i`-th candidate is the `i`-th tuple of
   * `itertools.product(charset, repeat=len)`, i.e. `i` in base |charset| with
   * the last position varying fastest.
   */
  lemma BruteForceOrder(knownCharset: string, len: nat, i: nat)
    requires MinLength <= len <= MaxLength
    requires i < Pow(|CharsetFor(knownCharset)|, len)
    ensures Count(|CharsetFor(knownCharset)|, MinLength, len - 1) + i < |BruteForceCandidates(knownCharset)|
    ensures |Product(CharsetFor(knownCharset), len)| == Pow(|CharsetFor(knownCharset)|, len)
    ensures BruteForceCandidates(knownCharset)[Count(|CharsetFor(knownCharset)|, MinLength, len - 1) + i]
            == Word(CharsetFor(knownCharset), len, i)
            == Product(CharsetFor(knownCharset), len)[i]
  {
    WordAt(CharsetFor(knownCharset), MinLength, MaxLength, len, i);
  }

  /** Each length contributes |charset|^len candidates, and none is tried twice. */
  lemma BruteForceCount(knownCharset: string)
    ensures var k := |CharsetFor(knownCharset)|;
      |BruteForceCandidates(knownCharset)| == Pow(k, 3) + Pow(k, 4) + Pow(k, 5) + Pow(k, 6)
    ensures Distinct(BruteForceCandidates(knownCharset))
  {
    var cs := CharsetFor(knownCharset);
    CandidatesLength(cs, MinLength, MaxLength);
    CandidatesDistinct(cs, MinLength, MaxLength);
  }

  /** With the numeric charset, "000" is tried first and "123" is the 124th candidate. */
  lemma NumericOrderExample()
    ensures BruteForceCandidates("numeric")[0] == "000"
    ensures BruteForceCandidates("numeric")[123] == "123"
  {
    assert Pow(10, 3) == 1000 by {
      assert Pow(10, 1) == 10;
      assert Pow(10, 2) == 100;
    }
    assert CharsetFor("numeric") == Digits && |Digits| == 10;
    assert Count(10, MinLength, 2) == 0;
    NumericWords();
    BruteForceOrder("numeric", 3, 0);
    BruteForceOrder("numeric", 3, 123);
  }

  lemma NumericWords()
    ensures Word(Digits, 3, 0) == "000" && Word(Digits, 3, 123) == "123"
  {
    var one, two, three := Digits[1], Digits[2], Digits[3];
    assert one == '1' && two == '2' && three == '3';
    assert Word(Digits, 1, 1) == [one];
    assert Word(Digits, 2, 12) == [one, two];
    assert Word(Digits, 3, 123) == [one, two, three];
  }
}
