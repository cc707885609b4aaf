/** Declarations that several modules use. */
module Shared {

  datatype Option<+T> = None | Some(value: T)

  /** A name as the source compares it. */
  datatype Key = Key(text: string)

  function LowerChar(c: char): char {
    if 'A' <= c <= 'Z' then c - 'A' + 'a' else c
  }

  /** `toLowerCase` on ASCII letters. */
  function Lower(s: string): string {
    seq(|s|, i requires 0 <= i < |s| => LowerChar(s[i]))
  }

  function Min(a: nat, b: nat): nat {
    if a < b then a else b
  }
}
