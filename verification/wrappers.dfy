/** Shared vocabulary: optional values, and facts about sequences and characters. */
module Wrappers {

  datatype Option<+T> = None | Some(value: T)

  ghost predicate Distinct<T>(xs: seq<T>) {
    forall i, j | 0 <= i < j < |xs| :: xs[i] != xs[j]
  }

  lemma Regroup<T>(a: seq<T>, b: seq<T>, c: seq<T>)
    ensures a + b + c == a + (b + c)
  {
  }

  /** A text that lists characters one after another holds those between its first and its last. */
  lemma CharacterBlock(first: char, last: char, block: string, ch: char)
    requires |block| > 0 && block[0] == first && block[|block| - 1] == last
    requires forall i | 0 <= i < |block| :: block[i] as int == first as int + i
    ensures ch in block <==> first <= ch <= last
  {
    if first <= ch <= last {
      assert block[ch as int - first as int] == ch;
    }
  }
}
