/** Group codes: five characters drawn from the upper-case letters and the
    digits. The random draws are a parameter: `draws[i]` is the index into
    the 36-character alphabet that the i-th random choice picked. */
module GroupCodes {

  /** `string.ascii_uppercase + string.digits`, in that order. */
  const Alphabet: string := "ABCDEFGHIJKLMNOPQRSTUVWXYZ0123456789"

  /** Number of characters in a group code. */
  const CodeLength: nat := 5

  predicate IsCodeChar(c: char) {
    'A' <= c <= 'Z' || '0' <= c <= '9'
  }

  /** A well-formed group code. */
  predicate IsGroupCode(s: string) {
    |s| == CodeLength && forall i :: 0 <= i < |s| ==> IsCodeChar(s[i])
  }

  /** Valid random draws: five indices into the alphabet. */
  predicate IsDraws(draws: seq<nat>) {
    |draws| == CodeLength && forall i :: 0 <= i < |draws| ==> draws[i] < |Alphabet|
  }

  /** The alphabet's character at index `d`, computed from its position. */
  function CharAt(d: nat): (c: char)
    requires d < 36
    ensures IsCodeChar(c)
    ensures c == Alphabet[d]
  {
    if d < 26 then ('A' as int + d) as char else ('0' as int + (d - 26)) as char
  }

  /** Position of a code character in the alphabet. */
  function IndexOf(c: char): (d: nat)
    requires IsCodeChar(c)
    ensures d < |Alphabet| && Alphabet[d] == c
  {
    if 'A' <= c <= 'Z' then c as int - 'A' as int else 26 + (c as int - '0' as int)
  }

  /** The code that `generate_group_code` returns for the given draws. */
  function GenerateCode(draws: seq<nat>): (code: string)
    requires IsDraws(draws)
    ensures IsGroupCode(code)
    ensures forall i :: 0 <= i < |code| ==> IndexOf(code[i]) == draws[i]
  {
    seq(|draws|, i requires 0 <= i < |draws| => CharAt(draws[i]))
  }

  /** The draws that produce a given code. */
  function DrawsOf(code: string): (draws: seq<nat>)
    requires IsGroupCode(code)
    ensures IsDraws(draws)
  {
    seq(|code|, i requires 0 <= i < |code| => IndexOf(code[i]))
  }

  /** Every well-formed code can be generated, by exactly the draws `DrawsOf`
      gives. */
  lemma CodeRoundTrip(code: string)
    requires IsGroupCode(code)
    ensures GenerateCode(DrawsOf(code)) == code
  {
    var g := GenerateCode(DrawsOf(code));
    forall i | 0 <= i < |code| ensures g[i] == code[i] {
      assert Alphabet[IndexOf(code[i])] == code[i];
    }
  }

  /** Different draws give different codes. */
  lemma DrawsRoundTrip(draws: seq<nat>)
    requires IsDraws(draws)
    ensures DrawsOf(GenerateCode(draws)) == draws
  {
  }
}
