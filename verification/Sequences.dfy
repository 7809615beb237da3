/** Splitting and joining sequences: small facts that loops over lists use. */
module Sequences {
  lemma AtSplit<T>(done: seq<T>, rest: seq<T>, y: T)
    requires rest != []
    ensures var s := done + rest;
      s[|done|] == rest[0] && s[|done| := y] == (done + [y]) + rest[1..]
      && s == (done + [rest[0]]) + rest[1..] && s[..|done|] + s[|done| + 1..] == done + rest[1..]
  {
  }

  lemma Regroup<T>(a: seq<T>, x: T, b: seq<T>)
    ensures a + ([x] + b) == (a + [x]) + b
  {
  }

  lemma LastSplit<T>(front: seq<T>, back: seq<T>)
    requires front != []
    ensures var p, l := |front| - 1, front[|front| - 1];
      (front + back)[p] == l && front + back == front[..p] + ([l] + back)
  {
  }

  lemma SplitBack<T>(front: seq<T>, back: seq<T>)
    ensures (front + back)[..|front|] == front && (front + back)[|front|..] == back
  {
  }
}
