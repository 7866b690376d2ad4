/** Short-key generation: six letters drawn from Python's `string.ascii_letters`. */
module KeyGen {

  /** Number of characters in a generated key. */
  const KeyLength: nat := 6

  /** The 26 letters from `first` on in code-point order. */
  function LetterRun(first: char): (run: string)
    requires first == 'a' || first == 'A'
    ensures |run| == 26
    ensures forall i :: 0 <= i < 26 ==> run[i] as int == first as int + i
  {
    seq(26, i requires 0 <= i < 26 => (first as int + i) as char)
  }

  /** The alphabet keys are drawn from, lower case first as in `string.ascii_letters`. */
  const AsciiLetters: string := LetterRun('a') + LetterRun('A')

  predicate IsAsciiLetter(c: char) {
    'a' <= c <= 'z' || 'A' <= c <= 'Z'
  }

  /** A key `generate_url_key` can produce. */
  predicate ValidKey(k: string) {
    |k| == KeyLength && forall i :: 0 <= i < |k| ==> IsAsciiLetter(k[i])
  }

  /** One index per character, each a choice among the letters, as `secrets.choice` makes it. */
  predicate ValidDraws(draws: seq<int>) {
    |draws| == KeyLength && forall i :: 0 <= i < |draws| ==> 0 <= draws[i] < |AsciiLetters|
  }

  /** The position of a letter in `AsciiLetters`. */
  function LetterIndex(c: char): (n: nat)
    requires IsAsciiLetter(c)
    ensures n < |AsciiLetters| && AsciiLetters[n] == c
  {
    if 'a' <= c <= 'z' then c as int - 'a' as int else 26 + (c as int - 'A' as int)
  }

  /** The alphabet is exactly Python's `ascii_letters` constant. */
  lemma AsciiLettersLiteral()
    ensures AsciiLetters == "abcdefghijklmnopqrstuvwxyzABCDEFGHIJKLMNOPQRSTUVWXYZ"
  {
    var lower, upper := "abcdefghijklmnopqrstuvwxyz", "ABCDEFGHIJKLMNOPQRSTUVWXYZ";
    forall i | 0 <= i < 26 ensures LetterRun('a')[i] == lower[i] {}
    forall i | 0 <= i < 26 ensures LetterRun('A')[i] == upper[i] {}
  }

  /** `generate_url_key`, with the random choices supplied as `draws`. */
  function GenerateUrlKey(draws: seq<int>): (k: string)
    requires ValidDraws(draws)
    ensures ValidKey(k)
    ensures forall i :: 0 <= i < |k| ==> LetterIndex(k[i]) == draws[i]
  {
    seq(|draws|, i requires 0 <= i < |draws| => AsciiLetters[draws[i]])
  }

  /** The choices that make `GenerateUrlKey` produce `k`. */
  function DrawsOf(k: string): (draws: seq<int>)
    requires ValidKey(k)
    ensures ValidDraws(draws)
  {
    seq(|k|, i requires 0 <= i < |k| => LetterIndex(k[i]))
  }

  /** Every six-letter key is a possible output, and each output comes from exactly one
      sequence of choices. */
  lemma GenerateUrlKeyRoundTrip(k: string, draws: seq<int>)
    requires ValidKey(k)
    requires ValidDraws(draws)
    ensures GenerateUrlKey(DrawsOf(k)) == k
    ensures DrawsOf(GenerateUrlKey(draws)) == draws
  {
  }
}
