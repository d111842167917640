/**
 * The state both dictionaries keep, as values: `buckets` maps an encoded
 * number (the decimal text of a word's code) to the upper-cased words with
 * that code, in insertion order, and `shortest` records the length of the
 * shortest word added so far (0 while nothing has been added).
 */
module Lexicon {
  import opened Wrappers
  import opened JavaLang
  import opened PhoneWordEncoder

  type Buckets = map<string, seq<string>>

  datatype State = State(buckets: Buckets, shortest: int)

  /** `wordEncoder.encode(word) + ""`; None where the encoder throws. */
  function EncodedKey(word: string): Option<string>
  {
    match Encoding(word)
    case Success(code) => Some(IntToString(code))
    case Failure(_) => None
  }

  /** The bucket of `key` with `word` appended at its end, created when missing. */
  function AppendWord(b: Buckets, key: string, word: string): Buckets
  {
    b[key := (if key in b then b[key] else []) + [word]]
  }

  /** The first word sets the shortest length; a later word can only lower it. */
  function NextShortest(shortest: int, len: int): int
  {
    if shortest == 0 then len else if len < shortest then len else shortest
  }

  /** `addNewWord` on values: None where the word is refused and nothing changes. */
  function AddWord(s: State, word: Option<string>): Option<State>
  {
    if word.None? || word.value == [] then None
    else
      var upper := ToUpperCase(word.value);
      match EncodedKey(upper)
      case None => None
      case Some(key) => Some(State(AppendWord(s.buckets, key, upper), NextShortest(s.shortest, |upper|)))
  }

  predicate AllLetters(w: string)
  {
    forall i :: 0 <= i < |w| ==> IsLetter(w[i])
  }

  /** A word is refused exactly when it is null, empty or holds a character that is not an ASCII letter. */
  lemma AddWordRefusedIff(s: State, word: Option<string>)
    ensures AddWord(s, word).None? <==> word.None? || word.value == [] || !AllLetters(word.value)
  {
    if word.Some? && word.value != [] {
      var w := word.value;
      EncodingCaseInsensitive(w);
      EncodingFailsIff(w);
    }
  }

  /**
   * An accepted word is upper-cased and appended at the end of the bucket of
   * its code; every other bucket stays as it was; the shortest length becomes
   * the word's length if it was 0 and the smaller of the two otherwise.
   */
  lemma AddWordEffect(s: State, word: Option<string>)
    requires AddWord(s, word).Some?
    ensures var t := AddWord(s, word).value;
      var upper := ToUpperCase(word.value);
      var key := EncodedKey(upper).value;
      && EncodedKey(word.value) == Some(key)
      && key in t.buckets
      && t.buckets[key] == (if key in s.buckets then s.buckets[key] else []) + [upper]
      && (forall k :: k != key ==> (k in t.buckets <==> k in s.buckets))
      && (forall k :: k != key && k in s.buckets ==> t.buckets[k] == s.buckets[k])
      && (s.shortest == 0 ==> t.shortest == |word.value|)
      && (s.shortest != 0 ==> t.shortest == if |word.value| < s.shortest then |word.value| else s.shortest)
  {
    EncodingCaseInsensitive(word.value);
  }

  // ---------------------------------------------------------------- the invariant

  /** A stored word: non-empty, upper-case letters, and filed under its own code. */
  predicate Stored(w: string, key: string)
  {
    w != [] && (forall i :: 0 <= i < |w| ==> IsUpper(w[i])) && EncodedKey(w) == Some(key)
  }

  predicate WellFormed(s: State)
  {
    && (forall k :: k in s.buckets ==> s.buckets[k] != [])
    && (forall k, i :: k in s.buckets && 0 <= i < |s.buckets[k]| ==> Stored(s.buckets[k][i], k))
    && (s.buckets == map[] ==> s.shortest == 0)
    && (s.buckets != map[] ==> s.shortest > 0 && IsShortest(s.buckets, s.shortest))
  }

  /** `len` is the length of some stored word and no stored word is shorter. */
  predicate IsShortest(b: Buckets, len: int)
  {
    && (forall k, i :: k in b && 0 <= i < |b[k]| ==> |b[k][i]| >= len)
    && (exists k, i :: k in b && 0 <= i < |b[k]| && |b[k][i]| == len)
  }

  /** The freshly constructed dictionary is well formed. */
  lemma EmptyWellFormed()
    ensures WellFormed(State(map[], 0))
  {
  }

  lemma UpperWordStored(w: string)
    requires w != [] && AllLetters(w)
    ensures EncodedKey(w).Some? && Stored(ToUpperCase(w), EncodedKey(w).value)
  {
    var u := ToUpperCase(w);
    forall i | 0 <= i < |u| ensures IsUpper(u[i]) {
      ToUpperCaseAt(w, i);
    }
    EncodingCaseInsensitive(w);
    EncodingFailsIff(w);
  }

  /** Adding a word keeps the dictionary well formed; in particular `shortest` stays the minimum word length. */
  lemma AddWordKeepsWellFormed(s: State, word: Option<string>)
    requires WellFormed(s)
    requires AddWord(s, word).Some?
    ensures WellFormed(AddWord(s, word).value)
  {
    var w := word.value;
    AddWordRefusedIff(s, word);
    UpperWordStored(w);
    AddWordEffect(s, word);
    var upper := ToUpperCase(w);
    var key := EncodedKey(upper).value;
    assert AddWord(s, word).value == State(AppendWord(s.buckets, key, upper), NextShortest(s.shortest, |upper|));
    AppendKeepsStored(s.buckets, key, upper);
    AppendKeepsShortest(s.buckets, s.shortest, key, upper);
  }

  /** Appending a stored word keeps every bucket non-empty and every word filed under its own code. */
  lemma AppendKeepsStored(b: Buckets, key: string, u: string)
    requires forall k :: k in b ==> b[k] != []
    requires forall k, i :: k in b && 0 <= i < |b[k]| ==> Stored(b[k][i], k)
    requires Stored(u, key)
    ensures forall k :: k in AppendWord(b, key, u) ==> AppendWord(b, key, u)[k] != []
    ensures forall k, i :: k in AppendWord(b, key, u) && 0 <= i < |AppendWord(b, key, u)[k]| ==>
      Stored(AppendWord(b, key, u)[k][i], k)
  {
    var t := AppendWord(b, key, u);
    forall k, i | k in t && 0 <= i < |t[k]| ensures Stored(t[k][i], k) {
      if k == key && k in b && i < |b[k]| {
        assert t[k][i] == b[k][i];
      }
    }
  }

  /** Appending a word of length `|u|` makes `NextShortest` the new minimum. */
  lemma AppendKeepsShortest(b: Buckets, shortest: int, key: string, u: string)
    requires b == map[] ==> shortest == 0
    requires b != map[] ==> shortest > 0 && IsShortest(b, shortest)
    requires u != []
    ensures NextShortest(shortest, |u|) > 0
    ensures IsShortest(AppendWord(b, key, u), NextShortest(shortest, |u|))
  {
    var t := AppendWord(b, key, u);
    var n := NextShortest(shortest, |u|);
    assert t[key][|t[key]| - 1] == u;
    if b == map[] {
      forall k, i | k in t && 0 <= i < |t[k]| ensures |t[k][i]| >= n {
        assert k == key && t[k] == [u];
      }
    } else {
      AppendKeepsLowerBound(b, shortest, key, u, n);
      if |u| >= shortest {
        var k, i :| k in b && 0 <= i < |b[k]| && |b[k][i]| == shortest;
        if k == key {
          assert t[k][i] == b[k][i];
        }
        assert |t[k][i]| == n;
      }
    }
  }

  lemma AppendKeepsLowerBound(b: Buckets, shortest: int, key: string, u: string, n: int)
    requires forall k, i :: k in b && 0 <= i < |b[k]| ==> |b[k][i]| >= shortest
    requires n <= shortest && n <= |u|
    ensures forall k, i :: k in AppendWord(b, key, u) && 0 <= i < |AppendWord(b, key, u)[k]| ==>
      |AppendWord(b, key, u)[k][i]| >= n
  {
    var t := AppendWord(b, key, u);
    forall k, i | k in t && 0 <= i < |t[k]| ensures |t[k][i]| >= n {
      if k == key && k in b && i < |b[k]| {
        assert t[k][i] == b[k][i];
      }
    }
  }

  /**
   * A stored word of at most 9 letters is exactly as long as its key, since
   * its code then has one decimal digit 2..9 per letter; longer words wrap
   * around in 32-bit arithmetic and lose this.
   */
  lemma ShortStoredWordFitsKey(w: string, key: string)
    requires Stored(w, key) && |w| <= 9
    ensures |key| == |w|
    ensures forall i :: 0 <= i < |key| ==> '2' <= key[i] <= '9'
  {
    assert AllLetters(w);
    ShortWordEncoding(w);
  }

  /** Every stored word has at most 9 letters, so its code fits a Java `int` without wrapping around. */
  predicate ShortWords(b: Buckets)
  {
    forall k, i :: k in b && 0 <= i < |b[k]| ==> |b[k][i]| <= 9
  }
}
