/** The style classes given to code blocks, keyed by block width. */
module Styles {

  datatype Option<T> = None | Some(value: T)

  const MinWidthClasses: seq<string> := ["parenthesis", "space"]
  const MaxWidthClasses: seq<string> := ["comment", "function"]
  const OtherClasses: seq<string> := [
    "access-modifier",
    "primitive-type",
    "conditional-statement",
    "jump-statement",
    "variable-declaration-const",
    "variable-declaration-let"
  ]

  /** The pool a block draws its class from: the two "short" names for a
      block exactly `min` wide, otherwise the two "long" names for a block
      exactly `max` wide, otherwise the six general names. */
  function ClassPool(blockWidth: int, codeBlockMinWidth: int, codeBlockMaxWidth: int): (pool: seq<string>)
    ensures |pool| >= 2 && pool[0] != pool[1]
  {
    if blockWidth == codeBlockMinWidth then MinWidthClasses
    else if blockWidth == codeBlockMaxWidth then MaxWidthClasses
    else OtherClasses
  }

  /** Every pool holds two different names, so whatever class came before,
      the pool offers one that differs from it: the redraw loop can end. */
  lemma PoolOffersAlternative(blockWidth: int, codeBlockMinWidth: int, codeBlockMaxWidth: int, previous: Option<string>)
    ensures exists c | c in ClassPool(blockWidth, codeBlockMinWidth, codeBlockMaxWidth) :: Some(c) != previous
  {
    var pool := ClassPool(blockWidth, codeBlockMinWidth, codeBlockMaxWidth);
    if Some(pool[0]) == previous {
      assert Some(pool[1]) != previous;
    }
  }

  /** `chooseRandomString`: an element at a random index. */
  method ChooseRandomString(strings: seq<string>) returns (s: string)
    requires strings != []
    ensures s in strings
  {
    var randomIndex :| 0 <= randomIndex < |strings|;
    s := strings[randomIndex];
  }
}
