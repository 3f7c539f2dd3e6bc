/** What one call of a tokenizer function does to the text ahead of it. */
module TokenStep {

  /** A token, after `taken` characters have been passed; the end, after as many; or an exception. */
  datatype Step = Token(taken: nat, tok: string) | Stop(taken: nat) | Throw

  function Concat(tokens: seq<string>): string {
    if tokens == [] then "" else tokens[0] + Concat(tokens[1..])
  }
}
