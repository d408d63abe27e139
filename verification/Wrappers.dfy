/** Small result types shared by the models. */
module Wrappers {

  datatype Option<+T> = None | Some(value: T)

  function Min(a: nat, b: nat): nat {
    if a <= b then a else b
  }

  lemma Associate<T>(a: seq<T>, b: seq<T>, c: seq<T>)
    ensures (a + b) + c == a + (b + c)
  {
  }

  /** Writing `piece` behind the `done` part, over what a buffer held before. */
  lemma Written<T>(before: seq<T>, cur: seq<T>, next: seq<T>, done: seq<T>, piece: seq<T>, start: nat, at: nat, to: nat)
    requires start <= at <= to <= |before| && at == start + |done| && to == at + |piece|
    requires cur == before[..start] + done + before[at..]
    requires next == cur[..at] + piece + cur[to..]
    ensures next == before[..start] + (done + piece) + before[to..]
  {
    assert cur[..at] == before[..start] + done;
    assert cur[to..] == before[to..];
    Associate(before[..start], done, piece);
  }
}
