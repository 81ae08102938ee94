/** The hand-rolled RC4 generator (`src/ssr/rc4.rs`). */
module Rc4Cipher {
  import opened Bytes

  type Box = s: seq<byte> | |s| == 256 witness seq(256, (i: nat) => 0 as byte)

  datatype Rc4State = Rc4State(s: Box, i: byte, j: byte)

  function Swap(s: Box, a: byte, b: byte): Box { s[a := s[b]][b := s[a]] }

  // ---- key schedule ----

  function Identity(): Box {
    seq(256, (k: nat) requires k < 256 => k as byte)
  }

  /** The box and the index `j` after `n` rounds of the key schedule. */
  function Schedule(key: Bytes, n: nat): (Box, byte)
    requires |key| > 0 && n <= 256
  {
    if n == 0 then (Identity(), 0)
    else
      var (s, j) := Schedule(key, n - 1);
      var j' := WrapAdd8(WrapAdd8(j, s[n - 1]), key[(n - 1) % |key|]);
      (Swap(s, n - 1, j'), j')
  }

  function Keyed(key: Bytes): Rc4State
    requires |key| > 0
  {
    Rc4State(Schedule(key, 256).0, 0, 0)
  }

  // ---- generator ----

  function Advance(st: Rc4State): Rc4State {
    var i := WrapAdd8(st.i, 1);
    var j := WrapAdd8(st.j, st.s[i]);
    Rc4State(Swap(st.s, i, j), i, j)
  }

  /** The keystream byte of a state just advanced to. */
  function KeyByte(st: Rc4State): byte { st.s[WrapAdd8(st.s[st.i], st.s[st.j])] }

  /** The state after `n` keystream bytes. */
  function AdvanceBy(st: Rc4State, n: nat): Rc4State {
    if n == 0 then st else Advance(AdvanceBy(st, n - 1))
  }

  // ---- the box stays a permutation of 0..255 ----

  ghost predicate IsPermutation(s: Box) {
    multiset(s) == multiset(Identity())
  }

  lemma SwapKeepsPermutation(s: Box, a: byte, b: byte)
    requires IsPermutation(s)
    ensures IsPermutation(Swap(s, a, b))
  {
    assert multiset(Swap(s, a, b)) == multiset(s);
  }

  lemma {:induction false} SchedulePermutes(key: Bytes, n: nat)
    requires |key| > 0 && n <= 256
    ensures IsPermutation(Schedule(key, n).0)
  {
    if n > 0 {
      SchedulePermutes(key, n - 1);
      SwapKeepsPermutation(Schedule(key, n - 1).0, n - 1, Schedule(key, n).1);
    }
  }

  /** In every state the generator reaches from any key, the box is a permutation. */
  lemma {:induction false} BoxAlwaysPermutation(key: Bytes, n: nat)
    requires |key| > 0
    ensures IsPermutation(AdvanceBy(Keyed(key), n).s)
  {
    if n == 0 {
      SchedulePermutes(key, 256);
    } else {
      BoxAlwaysPermutation(key, n - 1);
      var st := AdvanceBy(Keyed(key), n - 1);
      var i := WrapAdd8(st.i, 1);
      SwapKeepsPermutation(st.s, i, WrapAdd8(st.j, st.s[i]));
    }
  }

  // ---- in place ----

  class Rc4 {
    const s: array<byte>
    var i: byte
    var j: byte

    ghost predicate Valid()
      reads this
    {
      s.Length == 256
    }

    ghost function State(): Rc4State
      requires Valid()
      reads this, s
    {
      Rc4State(s[..], i, j)
    }

    constructor (key: Bytes)
      requires |key| > 0
      ensures Valid() && fresh(s)
      ensures State() == Keyed(key)
    {
      i, j := 0, 0;
      s := new byte[256] (k requires 0 <= k < 256 => k as byte);
      new;
      assert s[..] == Identity();
      var j: byte := 0;
      for i := 0 to 256
        invariant (s[..], j) == Schedule(key, i)
        invariant this.i == 0 && this.j == 0
      {
        j := WrapAdd8(WrapAdd8(j, s[i]), key[i % |key|]);
        s[i], s[j] := s[j], s[i];
        assert s[..] == Swap(Schedule(key, i).0, i, j);
      }
    }

    /** Each byte of `data` meets its own keystream byte, whatever the other bytes are. */
    method Apply(data: array<byte>)
      requires Valid() && data != s
      modifies this, s, data
      ensures Valid()
      ensures State() == AdvanceBy(old(State()), data.Length)
      ensures forall k :: 0 <= k < data.Length ==>
        data[k] == Xor(old(data[k]), KeyByte(AdvanceBy(old(State()), k + 1)))
    {
      hide Advance, KeyByte, Xor;
      for k := 0 to data.Length
        invariant State() == AdvanceBy(old(State()), k)
        invariant forall m :: 0 <= m < k ==>
          data[m] == Xor(old(data[m]), KeyByte(AdvanceBy(old(State()), m + 1)))
        invariant forall m :: k <= m < data.Length ==> data[m] == old(data[m])
      {
        var key := Next();
        data[k] := Xor(data[k], key);
      }
    }

    /** One round of the generator. */
    method Next() returns (key: byte)
      requires Valid()
      modifies this, s
      ensures Valid()
      ensures State() == Advance(old(State())) && key == KeyByte(State())
    {
      i := WrapAdd8(i, 1);
      j := WrapAdd8(j, s[i]);
      s[i], s[j] := s[j], s[i];
      key := s[WrapAdd8(s[i], s[j])];
    }
  }
}
