/**
 * The batch attacker of the salted-hash experiment: MD5 of
 * `password + salt`, a dictionary attack and a brute-force attack over a list
 * of target hashes that record every match in a `cracked` map and stop once
 * the map has as many entries as the list, the charset table, and the rule
 * that recovers the salt from a salted line.
 *
 * MD5 is the uninterpreted `md5Hex`, standing for
 * `hashlib.md5(s.encode()).hexdigest()`.
 */
module SaltedAttack {
  import opened Wrappers
  import opened Alphabets
  import opened Enumeration

  /** `get_hash(password, salt)`. */
  function GetHash(md5Hex: string -> string, password: string, salt: string): string {
    md5Hex(password + salt)
  }

  /** The returned dictionary without its wall-clock `time` entry. */
  datatype AttackResult = AttackResult(cracked: map<string, string>, attempts: nat)

  /**
   * The `cracked` map after trying `words` in order: every word whose hash is
   * a target is stored under that hash, a later word overwriting an earlier one.
   */
  function Cracked(md5Hex: string -> string, hashes: seq<string>, words: seq<string>, salt: string)
    : (cracked: map<string, string>)
    ensures forall h :: h in cracked ==> h in hashes && GetHash(md5Hex, cracked[h], salt) == h
    decreases |words|
  {
    if words == [] then map[]
    else
      var prev := Cracked(md5Hex, hashes, words[..|words| - 1], salt);
      var word := words[|words| - 1];
      var hashValue := GetHash(md5Hex, word, salt);
      if hashValue in hashes then prev[hashValue := word] else prev
  }

  /** The early exit fires right after the `n`-th word: it is a match and `len(cracked) == len(hashes)`. */
  predicate ExitsAfter(md5Hex: string -> string, hashes: seq<string>, words: seq<string>, salt: string, n: nat) {
    && 1 <= n <= |words|
    && GetHash(md5Hex, words[n - 1], salt) in hashes
    && |Cracked(md5Hex, hashes, words[..n], salt)| == |hashes|
  }

  /**
   * Trying candidate `i` after the first `i`: `cracked[hash_value] = word`
   * on a match, and the exit test `len(cracked) == len(hashes)` after it.
   */
  lemma ScanStep(md5Hex: string -> string, hashes: seq<string>, source: seq<string>, salt: string, i: nat)
    requires i < |source|
    ensures var h := GetHash(md5Hex, source[i], salt);
      var prev := Cracked(md5Hex, hashes, source[..i], salt);
      var next := if h in hashes then prev[h := source[i]] else prev;
      && Cracked(md5Hex, hashes, source[..i + 1], salt) == next
      && (ExitsAfter(md5Hex, hashes, source, salt, i + 1) <==> h in hashes && |next| == |hashes|)
  {
    assert source[..i + 1][..i] == source[..i];
  }

  /** No early exit fired after any of the first `m` words. */
  predicate NoExitWithin(md5Hex: string -> string, hashes: seq<string>, words: seq<string>, salt: string, m: int) {
    forall n :: 1 <= n <= m ==> !ExitsAfter(md5Hex, hashes, words, salt, n)
  }

  lemma NoExitExtend(md5Hex: string -> string, hashes: seq<string>, words: seq<string>, salt: string, m: nat)
    requires NoExitWithin(md5Hex, hashes, words, salt, m)
    requires !ExitsAfter(md5Hex, hashes, words, salt, m + 1)
    ensures NoExitWithin(md5Hex, hashes, words, salt, m + 1)
  {
  }

  /**
   * `result` is what a batch attack over `source` returns: it tried the first
   * `attempts` candidates, stopping at the first early exit or at the end.
   */
  predicate ScanResult(md5Hex: string -> string, hashes: seq<string>, source: seq<string>, salt: string, result: AttackResult) {
    && result.attempts <= |source|
    && result.cracked == Cracked(md5Hex, hashes, source[..result.attempts], salt)
    && (result.attempts == |source| || ExitsAfter(md5Hex, hashes, source, salt, result.attempts))
    && NoExitWithin(md5Hex, hashes, source, salt, result.attempts - 1)
  }

  /** `dictionary_attack(hashes, dictionary, salt)`. */
  method DictionaryAttack(md5Hex: string -> string, hashes: seq<string>, dictionary: seq<string>, salt: string)
    returns (result: AttackResult)
    ensures ScanResult(md5Hex, hashes, dictionary, salt, result)
  {
    var cracked: map<string, string> := map[];
    var attempts := 0;
    for i := 0 to |dictionary|
      invariant attempts == i
      invariant cracked == Cracked(md5Hex, hashes, dictionary[..i], salt)
      invariant NoExitWithin(md5Hex, hashes, dictionary, salt, i)
    {
      var word := dictionary[i];
      attempts := attempts + 1;
      ScanStep(md5Hex, hashes, dictionary, salt, i);
      var hashValue := GetHash(md5Hex, word, salt);
      if hashValue in hashes {
        cracked := cracked[hashValue := word];
        if |cracked| == |hashes| {
          break;
        }
      }
    }
    assert attempts == |dictionary| ==> dictionary[..attempts] == dictionary;
    return AttackResult(cracked, attempts);
  }

  /**
   * One pass of `for combo in itertools.product(charset, repeat=length)`,
   * trying candidates `attempts0 ..` of `source`; `exited` when it returned
   * early.
   */
  method ScanLength(md5Hex: string -> string, hashes: seq<string>, charset: string, length: nat, salt: string,
                    cracked0: map<string, string>, attempts0: nat, ghost source: seq<string>)
    returns (cracked: map<string, string>, attempts: nat, exited: bool)
    requires attempts0 + Pow(|charset|, length) <= |source|
    requires Pow(|charset|, length) > 0 ==> |charset| > 0
    requires forall i :: 0 <= i < Pow(|charset|, length) ==> source[attempts0 + i] == Word(charset, length, i)
    requires cracked0 == Cracked(md5Hex, hashes, source[..attempts0], salt)
    requires NoExitWithin(md5Hex, hashes, source, salt, attempts0)
    ensures attempts0 <= attempts <= attempts0 + Pow(|charset|, length)
    ensures cracked == Cracked(md5Hex, hashes, source[..attempts], salt)
    ensures exited ==> ExitsAfter(md5Hex, hashes, source, salt, attempts) &&
                       NoExitWithin(md5Hex, hashes, source, salt, attempts - 1)
    ensures !exited ==> attempts == attempts0 + Pow(|charset|, length) &&
                        NoExitWithin(md5Hex, hashes, source, salt, attempts)
  {
    cracked, attempts := cracked0, attempts0;
    var total := Pow(|charset|, length);
    for i := 0 to total
      invariant attempts == attempts0 + i
      invariant cracked == Cracked(md5Hex, hashes, source[..attempts], salt)
      invariant NoExitWithin(md5Hex, hashes, source, salt, attempts)
    {
      var password := Word(charset, length, i);
      ScanStep(md5Hex, hashes, source, salt, attempts);
      attempts := attempts + 1;
      var hashValue := GetHash(md5Hex, password, salt);
      if hashValue in hashes {
        cracked := cracked[hashValue := password];
        if |cracked| == |hashes| {
          return cracked, attempts, true;
        }
      }
      NoExitExtend(md5Hex, hashes, source, salt, attempts - 1);
    }
    exited := false;
  }

  /** `brute_force_attack(hashes, charset, max_length, salt)`. */
  method BruteForceAttack(md5Hex: string -> string, hashes: seq<string>, charset: string, maxLength: int, salt: string)
    returns (result: AttackResult)
    ensures ScanResult(md5Hex, hashes, Candidates(charset, 1, maxLength), salt, result)
    ensures result.attempts == Count(|charset|, 1, maxLength) ||
            ExitsAfter(md5Hex, hashes, Candidates(charset, 1, maxLength), salt, result.attempts)
  {
    ghost var cands := Candidates(charset, 1, maxLength);
    CandidatesBlocks(charset, 1, maxLength);
    var cracked: map<string, string> := map[];
    var attempts := 0;
    var length := 1;
    while length <= maxLength
      invariant 1 <= length && (maxLength >= 1 ==> length <= maxLength + 1)
      invariant attempts == Count(|charset|, 1, length - 1) <= |cands|
      invariant cracked == Cracked(md5Hex, hashes, cands[..attempts], salt)
      invariant NoExitWithin(md5Hex, hashes, cands, salt, attempts)
    {
      CountSnoc(|charset|, 1, length);
      assert HasBlock(charset, 1, length, cands);
      var exited;
      cracked, attempts, exited := ScanLength(md5Hex, hashes, charset, length, salt, cracked, attempts, cands);
      if exited {
        return AttackResult(cracked, attempts);
      }
      length := length + 1;
    }
    assert cands[..attempts] == cands;
    return AttackResult(cracked, attempts);
  }

  // ---- get_hash

  /** The salt is appended to the password, and the default empty salt gives the plain digest. */
  lemma GetHashAppendsSalt(md5Hex: string -> string, password: string, salt: string)
    ensures GetHash(md5Hex, password, salt) == GetHash(md5Hex, password + salt, "")
    ensures GetHash(md5Hex, password, "") == md5Hex(password)
  {
    assert password + salt + "" == password + salt;
    assert password + "" == password;
  }

  // ---- the cracked map

  /** The set of a list's elements, `set(hashes)`. */
  function Elements<T>(s: seq<T>): set<T> {
    set x | x in s
  }

  /** A list has at least as many entries as distinct elements, exactly as many iff it has no duplicate. */
  lemma {:induction false} ElementsSize<T>(s: seq<T>)
    ensures |Elements(s)| <= |s|
    ensures |Elements(s)| == |s| <==> Distinct(s)
  {
    if s != [] {
      var rest := s[1..];
      ElementsSize(rest);
      assert Elements(s) == {s[0]} + Elements(rest);
      if s[0] in rest {
        assert Elements(s) == Elements(rest);
        var j :| 0 <= j < |rest| && rest[j] == s[0];
        assert s[0] == s[j + 1];
      } else {
        assert |Elements(s)| == 1 + |Elements(rest)|;
        if Distinct(rest) {
          forall i, j | 0 <= i < j < |s| ensures s[i] != s[j] {
            if i > 0 {
              assert s[i] == rest[i - 1] && s[j] == rest[j - 1];
            } else {
              assert s[j] == rest[j - 1];
            }
          }
        } else {
          var i, j :| 0 <= i < j < |rest| && rest[i] == rest[j];
          assert s[i + 1] == s[j + 1];
        }
      }
    }
  }

  lemma SubsetSize<T>(a: set<T>, b: set<T>)
    requires a <= b
    ensures |a| <= |b|
    ensures |a| == |b| ==> a == b
  {
    assert b == a + (b - a);
    assert a * (b - a) == {};
  }

  /** A word that `words` holds at `i` whose hash `h` no later word has. */
  predicate LastMatch(md5Hex: string -> string, words: seq<string>, salt: string, h: string, i: int) {
    && 0 <= i < |words|
    && GetHash(md5Hex, words[i], salt) == h
    && forall j :: i < j < |words| ==> GetHash(md5Hex, words[j], salt) != h
  }

  /**
   * A target hash is a key of `cracked` exactly when some tried word has it,
   * and it is then mapped to the last such word.
   */
  lemma {:induction false} CrackedKeys(md5Hex: string -> string, hashes: seq<string>, words: seq<string>, salt: string)
    ensures forall h :: h in Cracked(md5Hex, hashes, words, salt) <==>
      h in hashes && exists i :: 0 <= i < |words| && GetHash(md5Hex, words[i], salt) == h
    ensures forall h :: h in Cracked(md5Hex, hashes, words, salt) ==>
      exists i :: LastMatch(md5Hex, words, salt, h, i) && Cracked(md5Hex, hashes, words, salt)[h] == words[i]
    decreases |words|
  {
    if words != [] {
      var init := words[..|words| - 1];
      var last := |words| - 1;
      CrackedKeys(md5Hex, hashes, init, salt);
      var cracked := Cracked(md5Hex, hashes, words, salt);
      forall h ensures h in cracked <==>
        h in hashes && exists i :: 0 <= i < |words| && GetHash(md5Hex, words[i], salt) == h
      {
        if h in hashes && exists i :: 0 <= i < |words| && GetHash(md5Hex, words[i], salt) == h {
          var i :| 0 <= i < |words| && GetHash(md5Hex, words[i], salt) == h;
          if i < last {
            assert init[i] == words[i];
          }
        }
      }
      forall h | h in cracked
        ensures exists i :: LastMatch(md5Hex, words, salt, h, i) && cracked[h] == words[i]
      {
        if GetHash(md5Hex, words[last], salt) == h {
          assert LastMatch(md5Hex, words, salt, h, last);
        } else {
          var i :| LastMatch(md5Hex, init, salt, h, i) && Cracked(md5Hex, hashes, init, salt)[h] == init[i];
          assert LastMatch(md5Hex, words, salt, h, i);
        }
      }
    }
  }

  /** `cracked` never has more entries than there are different target hashes. */
  lemma CrackedSize(md5Hex: string -> string, hashes: seq<string>, words: seq<string>, salt: string)
    ensures |Cracked(md5Hex, hashes, words, salt)| <= |Elements(hashes)| <= |hashes|
  {
    var cracked := Cracked(md5Hex, hashes, words, salt);
    assert cracked.Keys <= Elements(hashes);
    SubsetSize(cracked.Keys, Elements(hashes));
    ElementsSize(hashes);
  }

  /** With a repeated target hash, `len(cracked) == len(hashes)` can never hold: no early exit. */
  lemma DuplicatesNeverExit(md5Hex: string -> string, hashes: seq<string>, words: seq<string>, salt: string, n: nat)
    requires !Distinct(hashes)
    ensures !ExitsAfter(md5Hex, hashes, words, salt, n)
  {
    if 1 <= n <= |words| {
      CrackedSize(md5Hex, hashes, words[..n], salt);
      ElementsSize(hashes);
    }
  }

  /** ... so either attack then consumes its whole candidate source. */
  lemma DuplicatesScanAll(md5Hex: string -> string, hashes: seq<string>, source: seq<string>, salt: string, result: AttackResult)
    requires !Distinct(hashes)
    requires ScanResult(md5Hex, hashes, source, salt, result)
    ensures result.attempts == |source|
    ensures result.cracked == Cracked(md5Hex, hashes, source, salt)
  {
    if result.attempts < |source| {
      DuplicatesNeverExit(md5Hex, hashes, source, salt, result.attempts);
    }
    assert source[..result.attempts] == source;
  }

  /**
   * With distinct target hashes, `len(cracked) == len(hashes)` means exactly
   * that every target hash has been cracked.
   */
  lemma DistinctCrackedAll(md5Hex: string -> string, hashes: seq<string>, words: seq<string>, salt: string)
    requires Distinct(hashes)
    ensures |Cracked(md5Hex, hashes, words, salt)| == |hashes| <==>
      forall i :: 0 <= i < |hashes| ==> hashes[i] in Cracked(md5Hex, hashes, words, salt)
  {
    var cracked := Cracked(md5Hex, hashes, words, salt);
    ElementsSize(hashes);
    SubsetSize(cracked.Keys, Elements(hashes));
    if forall i :: 0 <= i < |hashes| ==> hashes[i] in cracked {
      assert cracked.Keys == Elements(hashes);
    }
  }

  /** With distinct target hashes, an attack exits right after the word that cracks the last uncracked target. */
  lemma DistinctExitIffAllCracked(md5Hex: string -> string, hashes: seq<string>, words: seq<string>, salt: string, n: nat)
    requires Distinct(hashes) && 1 <= n <= |words|
    ensures ExitsAfter(md5Hex, hashes, words, salt, n) <==>
      && GetHash(md5Hex, words[n - 1], salt) in hashes
      && forall i :: 0 <= i < |hashes| ==> hashes[i] in Cracked(md5Hex, hashes, words[..n], salt)
  {
    DistinctCrackedAll(md5Hex, hashes, words[..n], salt);
  }

  // ---- attempts

  /** `dictionary_attack` counts every word it examines and never more than the dictionary holds. */
  lemma DictionaryAttempts(md5Hex: string -> string, hashes: seq<string>, dictionary: seq<string>, salt: string, result: AttackResult)
    requires ScanResult(md5Hex, hashes, dictionary, salt, result)
    ensures result.attempts <= |dictionary|
    ensures result.attempts < |dictionary| ==>
      result.attempts >= 1 && |result.cracked| == |hashes| &&
      GetHash(md5Hex, dictionary[result.attempts - 1], salt) in hashes
  {
  }

  /** Without an early exit, brute force tries `|charset|^1 + ... + |charset|^max_length` candidates. */
  lemma BruteForceFullCount(md5Hex: string -> string, hashes: seq<string>, charset: string, maxLength: int, salt: string, result: AttackResult)
    requires !Distinct(hashes)
    requires ScanResult(md5Hex, hashes, Candidates(charset, 1, maxLength), salt, result)
    ensures result.attempts == Count(|charset|, 1, maxLength)
  {
    DuplicatesScanAll(md5Hex, hashes, Candidates(charset, 1, maxLength), salt, result);
    CandidatesLength(charset, 1, maxLength);
  }

  /** The sum of powers in closed form: `(k - 1) * (k + ... + k^m) == k^(m+1) - k`. */
  lemma {:induction false} CountClosedForm(k: nat, m: nat)
    ensures (k - 1) * Count(k, 1, m) == Pow(k, m + 1) - k
  {
    if m == 0 {
      assert Pow(k, 1) == k;
    } else {
      var c, p := Count(k, 1, m - 1), Pow(k, m);
      CountSnoc(k, 1, m);
      CountClosedForm(k, m - 1);
      ClosedFormStep(k, c, p);
      assert Pow(k, m + 1) == k * p;
    }
  }

  lemma ClosedFormStep(k: int, c: int, p: int)
    requires (k - 1) * c == p - k
    ensures (k - 1) * (c + p) == k * p - k
  {
    assert (k - 1) * (c + p) == (k - 1) * c + (k - 1) * p;
    assert (k - 1) * p == k * p - p;
  }

  // ---- get_charset_and_name

  const KnownCharsetTypes: set<string> := {"full_alpha", "lower_alpha", "alphanumeric", "all_chars"}

  /** `get_charset_and_name(charset_type)`: a charset and its display name. */
  function GetCharsetAndName(charsetType: string): (r: (string, string))
    ensures |r.0| > 0 && Distinct(r.0)
    ensures r.1 == "Unknown" <==> charsetType !in KnownCharsetTypes
  {
    LowercaseFacts();
    LettersDistinct();
    LettersDigitsDistinct();
    PrintableDistinct();
    if charsetType == "full_alpha" then (AsciiLowercase + AsciiUppercase, "Full Alphabetic")
    else if charsetType == "lower_alpha" then (AsciiLowercase, "Lowercase Alphabetic")
    else if charsetType == "alphanumeric" then (AsciiLowercase + AsciiUppercase + Digits, "Alphanumeric")
    else if charsetType == "all_chars" then
      (AsciiLowercase + AsciiUppercase + Digits + Punctuation, "Full Character Set")
    else (AsciiLowercase, "Unknown")
  }

  /** The table, with the size of each alphabet. */
  lemma CharsetAndNameTable(charsetType: string)
    ensures charsetType == "full_alpha" ==>
      GetCharsetAndName(charsetType) == (AsciiLetters, "Full Alphabetic") && |AsciiLetters| == 52
    ensures charsetType == "lower_alpha" ==>
      GetCharsetAndName(charsetType) == (AsciiLowercase, "Lowercase Alphabetic") && |AsciiLowercase| == 26
    ensures charsetType == "alphanumeric" ==>
      GetCharsetAndName(charsetType) == (AsciiLetters + Digits, "Alphanumeric") && |AsciiLetters + Digits| == 62
    ensures charsetType == "all_chars" ==>
      GetCharsetAndName(charsetType) == (AsciiLetters + Digits + Punctuation, "Full Character Set") &&
      |AsciiLetters + Digits + Punctuation| == 94
    ensures charsetType !in KnownCharsetTypes ==> GetCharsetAndName(charsetType) == (AsciiLowercase, "Unknown")
  {
    LowercaseFacts();
    LettersDistinct();
    LettersDigitsDistinct();
    PrintableDistinct();
  }

  // ---- the salt found in main

  /** The fallback salt used whenever the salt cannot be detected. */
  const DefaultSalt: string := "salt"

  /** `str.startswith`. */
  predicate StartsWith(s: string, prefix: string) {
    |prefix| <= |s| && s[..|prefix|] == prefix
  }

  /**
   * The salt-detection rule: the first (stripped) line of the salted file and
   * of the original dictionary, `None` for a file that cannot be opened. A
   * salted line that extends the original line yields the rest of it as the
   * salt; anything else yields the default salt.
   */
  function DeriveSalt(saltedLine: Option<string>, originalLine: Option<string>): (salt: string)
    ensures saltedLine.None? || originalLine.None? ==> salt == DefaultSalt
    ensures saltedLine.Some? && originalLine.Some? && StartsWith(saltedLine.value, originalLine.value) ==>
      originalLine.value + salt == saltedLine.value
    ensures saltedLine.Some? && originalLine.Some? && !StartsWith(saltedLine.value, originalLine.value) ==>
      salt == DefaultSalt
  {
    match (saltedLine, originalLine)
    case (Some(salted), Some(original)) =>
      if StartsWith(salted, original) then
        assert salted == original + salted[|original|..];
        salted[|original|..]
      else DefaultSalt
    case _ => DefaultSalt
  }

  /** A line salted by appending is un-salted by the rule: it recovers exactly the appended salt. */
  lemma DeriveSaltRoundTrip(original: string, salt: string)
    ensures DeriveSalt(Some(original + salt), Some(original)) == salt
  {
    assert (original + salt)[..|original|] == original;
  }

  /** An empty original line is a prefix of everything, so the whole salted line is taken as the salt. */
  lemma DeriveSaltEmptyOriginal(saltedLine: string)
    ensures DeriveSalt(Some(saltedLine), Some("")) == saltedLine
  {
  }
}
