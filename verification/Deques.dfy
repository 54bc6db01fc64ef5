/** Queues that lose entries at the front only, next to everything that was ever put in. */
module Deques {

  /** The deque holds the end of the history. */
  predicate EndOf<T(==)>(deque: seq<T>, history: seq<T>) {
    |deque| <= |history| && deque == history[|history| - |deque|..]
  }

  /** What the deque has lost. */
  function Lost<T>(deque: seq<T>, history: seq<T>): seq<T>
    requires |deque| <= |history|
  {
    history[..|history| - |deque|]
  }

  lemma EndExtends<T>(deque: seq<T>, history: seq<T>, x: T)
    requires EndOf(deque, history)
    ensures EndOf(deque + [x], history + [x]) && Lost(deque + [x], history + [x]) == Lost(deque, history)
  {
    var n := |history| - |deque|;
    assert (history + [x])[n..] == history[n..] + [x];
  }

  lemma EndOfEnd<T>(a: seq<T>, b: seq<T>, c: seq<T>)
    requires EndOf(a, b) && EndOf(b, c)
    ensures EndOf(a, c) && Lost(a, c) == Lost(b, c) + Lost(a, b)
  {
    assert c[|c| - |a|..] == b[|b| - |a|..];
    assert c == Lost(b, c) + b;
  }

  lemma EndSplits<T>(deque: seq<T>, history: seq<T>)
    requires EndOf(deque, history)
    ensures history == Lost(deque, history) + deque
  {
  }
}
