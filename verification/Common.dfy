/** Definitions that several modules share. */
module Common {

  datatype Option<T> = None | Some(value: T)

  const TWO32 := 0x1_0000_0000

  /** A truth value as a number, for counting. */
  function One(b: bool): nat { if b then 1 else 0 }

  predicate Ascending(s: seq<int>)
  {
    forall i, j | 0 <= i < j < |s| :: s[i] < s[j]
  }

  predicate NoRepeat(s: seq<int>)
  {
    forall i, j | 0 <= i < j < |s| :: s[i] != s[j]
  }
}
