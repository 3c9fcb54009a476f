/** Byte strings handed over in parts. */
module Chunks {
  import opened Integers

  function Joined(parts: seq<seq<uint8>>): seq<uint8>
    decreases |parts|
  {
    if parts == [] then [] else parts[0] + Joined(parts[1..])
  }

  lemma {:induction false} JoinedAppend(a: seq<seq<uint8>>, b: seq<seq<uint8>>)
    ensures Joined(a + b) == Joined(a) + Joined(b)
    decreases |a|
  {
    if a == [] {
      assert a + b == b;
    } else {
      JoinedAppend(a[1..], b);
      assert (a + b)[0] == a[0] && (a + b)[1..] == a[1..] + b;
    }
  }

  lemma JoinedOne(part: seq<uint8>)
    ensures Joined([part]) == part
  {
    assert [part][1..] == [];
  }
}
