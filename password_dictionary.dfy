/**
 * `create_password_dictionary`: a list of 1000 entries with the 16 target
 * words at positions chosen by `random.randint(0, 999)` (a position already
 * taken is drawn again) and a random filler of 3..8 characters over
 * lower-case letters and digits at every other position.
 *
 * The random choices are inputs: `positionDraws` is the sequence of values
 * the position draws return, in order; `fillerLength(i)` and
 * `fillerChar(i, j)` are the length drawn for index `i` and the index into
 * the filler alphabet drawn for its `j`-th character.
 */
module PasswordDictionary {
  import opened Wrappers
  import opened Alphabets

  const TargetWords: seq<string> := [
    "123", "1234", "12345", "123456", "abc", "pass", "xxxxx", "secret",
    "hi1", "abc1", "pass1", "xxxxx1", "AbC", "Pass", "xXxXx", "Secret"]

  const DictionarySize: nat := 1000

  /** The filler alphabet "abcdefghijklmnopqrstuvwxyz0123456789". */
  const FillerAlphabet: string := AsciiLowercase + Digits
  const MinFillerLength: nat := 3
  const MaxFillerLength: nat := 8

  /** The distinct values of `draws`, in the order they were first drawn. */
  function FirstDistinct(draws: seq<int>): (r: seq<int>)
    ensures Distinct(r)
    ensures forall x :: x in r <==> x in draws
    ensures |r| <= |draws|
  {
    if draws == [] then []
    else
      var prev := FirstDistinct(draws[..|draws| - 1]);
      var x := draws[|draws| - 1];
      assert draws == draws[..|draws| - 1] + [x];
      if x in prev then prev else prev + [x]
  }

  /** The filler string `''.join(random.choice(...) for _ in range(filler_length))` for index `i`. */
  function Filler(fillerLength: nat -> nat, fillerChar: (nat, nat) -> nat, i: nat): string
    requires forall i, j :: fillerChar(i, j) < |FillerAlphabet|
  {
    seq(fillerLength(i), j requires 0 <= j < fillerLength(i) => FillerAlphabet[fillerChar(i, j)])
  }

  lemma {:induction false} FirstDistinctPrefix(draws: seq<int>, d: nat)
    requires d <= |draws|
    ensures FirstDistinct(draws[..d]) <= FirstDistinct(draws)
    decreases |draws| - d
  {
    if d < |draws| {
      FirstDistinctPrefix(draws, d + 1);
      assert draws[..d + 1][..d] == draws[..d];
    } else {
      assert draws[..d] == draws;
    }
  }

  /**
   * The `while True` loop for one target word: draws positions from
   * `positionDraws[d0..]` until one is not in `usedPositions`. `found` is
   * false when the draws run out first.
   */
  method DrawFreePosition(positionDraws: seq<int>, d0: nat, usedPositions: set<int>, ghost placed: seq<int>)
    returns (found: bool, position: int, d: nat)
    requires d0 <= |positionDraws|
    requires placed == FirstDistinct(positionDraws[..d0])
    requires forall x :: x in usedPositions <==> x in placed
    ensures d0 <= d <= |positionDraws|
    ensures !found ==> d == |positionDraws| && FirstDistinct(positionDraws) == placed
    ensures found ==> 0 < d && position == positionDraws[d - 1] && position !in usedPositions &&
                      FirstDistinct(positionDraws[..d]) == placed + [position]
  {
    d := d0;
    while true
      invariant d0 <= d <= |positionDraws|
      invariant placed == FirstDistinct(positionDraws[..d])
      decreases |positionDraws| - d
    {
      if d == |positionDraws| {
        assert positionDraws[..d] == positionDraws;
        return false, 0, d;
      }
      position := positionDraws[d];
      assert positionDraws[..d + 1] == positionDraws[..d] + [position];
      d := d + 1;
      if position !in usedPositions {
        return true, position, d;
      }
    }
  }

  /**
   * The first loop of `create_password_dictionary` over `words` (the target
   * words): each word in turn takes the first drawn position not already
   * used. `placedAll` is false when the draws run out first.
   */
  method PlaceWords(words: seq<string>, positionDraws: seq<int>, largeDictionary: array<string>)
    returns (placedAll: bool, usedPositions: set<int>, ghost placed: seq<int>)
    requires largeDictionary.Length == DictionarySize
    requires forall d :: 0 <= d < |positionDraws| ==> 0 <= positionDraws[d] < DictionarySize
    modifies largeDictionary
    ensures forall x :: x in usedPositions <==> x in placed
    ensures placedAll <==> |FirstDistinct(positionDraws)| >= |words|
    ensures placedAll ==> placed == FirstDistinct(positionDraws)[..|words|]
    ensures placedAll ==> forall v :: 0 <= v < |words| ==>
      0 <= placed[v] < DictionarySize && largeDictionary[placed[v]] == words[v]
    ensures forall i :: 0 <= i < largeDictionary.Length && i !in placed ==>
      largeDictionary[i] == old(largeDictionary[i])
  {
    usedPositions, placed := {}, [];
    var d := 0;
    for w := 0 to |words|
      invariant d <= |positionDraws|
      invariant placed == FirstDistinct(positionDraws[..d]) && |placed| == w
      invariant forall x :: x in usedPositions <==> x in placed
      invariant forall v :: 0 <= v < |placed| ==> 0 <= placed[v] < DictionarySize
      invariant forall v :: 0 <= v < w ==> largeDictionary[placed[v]] == words[v]
      invariant forall i :: 0 <= i < largeDictionary.Length && i !in placed ==>
        largeDictionary[i] == old(largeDictionary[i])
    {
      var found, position;
      found, position, d := DrawFreePosition(positionDraws, d, usedPositions, placed);
      if !found {
        return false, usedPositions, placed;
      }
      largeDictionary[position] := words[w];
      usedPositions := usedPositions + {position};
      placed := placed + [position];
    }
    FirstDistinctPrefix(positionDraws, d);
    return true, usedPositions, placed;
  }

  /** `create_password_dictionary`; `None` when the supplied position draws run out before all 16 words are placed. */
  method CreatePasswordDictionary(positionDraws: seq<int>, fillerLength: nat -> nat, fillerChar: (nat, nat) -> nat)
    returns (r: Option<seq<string>>)
    requires forall d :: 0 <= d < |positionDraws| ==> 0 <= positionDraws[d] < DictionarySize
    requires forall i :: MinFillerLength <= fillerLength(i) <= MaxFillerLength
    requires forall i, j :: fillerChar(i, j) < |FillerAlphabet|
    ensures r.Some? <==> |FirstDistinct(positionDraws)| >= |TargetWords|
    ensures r.Some? ==>
      var dict, positions := r.value, FirstDistinct(positionDraws)[..|TargetWords|];
      && |dict| == DictionarySize
      && Distinct(positions)
      && (forall w :: 0 <= w < |TargetWords| ==> 0 <= positions[w] < DictionarySize && dict[positions[w]] == TargetWords[w])
      && (forall i :: 0 <= i < DictionarySize && i !in positions ==> dict[i] == Filler(fillerLength, fillerChar, i))
  {
    var largeDictionary := new string[DictionarySize](_ => "");
    var placedAll, usedPositions, placed := PlaceWords(TargetWords, positionDraws, largeDictionary);
    if !placedAll {
      return None;
    }
    for i := 0 to DictionarySize
      invariant forall v :: 0 <= v < |TargetWords| ==> largeDictionary[placed[v]] == TargetWords[v]
      invariant forall i' :: 0 <= i' < i && i' !in placed ==> largeDictionary[i'] == Filler(fillerLength, fillerChar, i')
    {
      if i !in usedPositions {
        var fillerLen := fillerLength(i);
        largeDictionary[i] := seq(fillerLen, j requires 0 <= j < fillerLen => FillerAlphabet[fillerChar(i, j)]);
      }
    }
    return Some(largeDictionary[..]);
  }

  /** Every filler has 3..8 characters, all lower-case letters or digits. */
  lemma FillerShape(fillerLength: nat -> nat, fillerChar: (nat, nat) -> nat, i: nat)
    requires forall i :: MinFillerLength <= fillerLength(i) <= MaxFillerLength
    requires forall i, j :: fillerChar(i, j) < |FillerAlphabet|
    ensures MinFillerLength <= |Filler(fillerLength, fillerChar, i)| <= MaxFillerLength
    ensures forall c :: c in Filler(fillerLength, fillerChar, i) ==> IsLower(c) || IsDigit(c)
  {
    assert forall k :: 0 <= k < |FillerAlphabet| ==> IsLower(FillerAlphabet[k]) || IsDigit(FillerAlphabet[k]);
  }

  /** A filler is drawn from the same alphabet as the target "123", so a filler can repeat a target word. */
  lemma FillerCanRepeatTarget()
    ensures Filler(_ => 3, (_, j) => (26 + j + 1) % 36, 0) == TargetWords[0]
  {
    var f := Filler(_ => 3, (_, j) => (26 + j + 1) % 36, 0);
    assert f[0] == Digits[1] && f[1] == Digits[2] && f[2] == Digits[3];
  }
}
