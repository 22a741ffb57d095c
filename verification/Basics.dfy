/** What several modules share: bytes, the smaller of two, a value that may be missing, and pieces joined. */
module Basics {

  type Byte = b: int | 0 <= b < 256

  datatype Option<T> = None | Some(value: T)

  function Least(a: nat, b: nat): nat {
    if a <= b then a else b
  }

  function Greatest(a: nat, b: nat): nat {
    if a <= b then b else a
  }

  /** Pieces end to end. */
  function Joined(pieces: seq<seq<Byte>>): seq<Byte> {
    if pieces == [] then [] else pieces[0] + Joined(pieces[1..])
  }

  lemma {:induction false} JoinedAppend(a: seq<seq<Byte>>, b: seq<seq<Byte>>)
    ensures Joined(a + b) == Joined(a) + Joined(b)
  {
    if a == [] {
      assert a + b == b;
    } else {
      assert (a + b)[1..] == a[1..] + b;
      JoinedAppend(a[1..], b);
    }
  }

  lemma JoinedOne(a: seq<seq<Byte>>, piece: seq<Byte>)
    ensures Joined(a + [piece]) == Joined(a) + piece
  {
    JoinedAppend(a, [piece]);
    assert Joined([piece]) == piece + Joined([]);
  }
}
