/** The source's in-place transformations of the 4 x 4 state, each proved against its function on states. */
module AesState {
  import opened Bytes
  import opened Gf256
  import opened AesTables
  import opened AesCipher

  method SubBytes(state: array<Byte>)
    requires state.Length == 16
    modifies state
    ensures state[..] == SubBytesOf(old(state[..]))
  {
    hide Sbox;
    var i := 0;
    while i < 4
      invariant 0 <= i <= 4
      invariant forall k :: 0 <= k < 16 ==> state[k] == if k < 4 * i then Sbox(old(state[k])) else old(state[k])
    {
      var j := 0;
      while j < 4
        invariant 0 <= j <= 4
        invariant forall k :: 0 <= k < 16 ==> state[k] == if k < 4 * i + j then Sbox(old(state[k])) else old(state[k])
      {
        var t := state[4 * i + j];
        state[4 * i + j] := Sbox(t);
        j := j + 1;
      }
      i := i + 1;
    }
  }

  method InvSubBytes(state: array<Byte>)
    requires state.Length == 16
    modifies state
    ensures state[..] == InvSubBytesOf(old(state[..]))
  {
    hide InvSbox;
    var i := 0;
    while i < 4
      invariant 0 <= i <= 4
      invariant forall k :: 0 <= k < 16 ==> state[k] == if k < 4 * i then InvSbox(old(state[k])) else old(state[k])
    {
      var j := 0;
      while j < 4
        invariant 0 <= j <= 4
        invariant forall k :: 0 <= k < 16 ==> state[k] == if k < 4 * i + j then InvSbox(old(state[k])) else old(state[k])
      {
        var t := state[4 * i + j];
        state[4 * i + j] := InvSbox(t);
        j := j + 1;
      }
      i := i + 1;
    }
  }

  /** Shifts row i by one position. */
  method ShiftRowOnce(state: array<Byte>, i: nat)
    requires state.Length == 16 && i < 4
    modifies state
    ensures state[..] == RotateRow(old(state[..]), i, 1)
  {
    var t := state[4 * i];
    var j := 0;
    while j < 3
      invariant 0 <= j <= 3
      invariant forall m :: 0 <= m < 16 ==> state[m] == if 4 * i <= m < 4 * i + j then old(state[m + 1]) else old(state[m])
    {
      state[4 * i + j] := state[4 * i + j + 1];
      j := j + 1;
    }
    state[4 * i + 3] := t;
    RotateOnce(old(state[..]), state[..], i);
  }

  lemma RotateOnce(s: Block, r: Block, i: nat)
    requires i < 4
    requires forall m {:trigger r[m]} :: 0 <= m < 16 ==>
               r[m] == if 4 * i <= m < 4 * i + 3 then s[m + 1] else if m == 4 * i + 3 then s[4 * i] else s[m]
    ensures r == RotateRow(s, i, 1)
  {
    forall m | 0 <= m < 16
      ensures r[m] == RotateRow(s, i, 1)[m]
    {
      var c := m % 4;
      assert m == 4 * (m / 4) + c;
      assert m / 4 == i <==> 4 * i <= m < 4 * i + 4;
    }
  }

  /** Shifts row i by n positions, one position at a time. */
  method ShiftRow(state: array<Byte>, i: nat, n: nat)
    requires state.Length == 16 && i < 4
    modifies state
    ensures state[..] == RotateRow(old(state[..]), i, n)
  {
    hide RotateRow;
    RotateRowZero(state[..], i);
    var k := 0;
    while k < n
      invariant 0 <= k <= n
      invariant state[..] == RotateRow(old(state[..]), i, k)
    {
      ShiftRowOnce(state, i);
      RotateRowAdds(old(state[..]), i, k);
      k := k + 1;
    }
  }

  lemma RotateRowZero(s: Block, i: nat)
    ensures RotateRow(s, i, 0) == s
  {
    forall m | 0 <= m < 16
      ensures RotateRow(s, i, 0)[m] == s[m]
    {
      assert m == 4 * (m / 4) + m % 4;
    }
  }

  lemma RotateRowAdds(s: Block, i: nat, k: nat)
    requires i < 4
    ensures RotateRow(RotateRow(s, i, k), i, 1) == RotateRow(s, i, k + 1)
  {
    hide RotateRow;
    forall m | 0 <= m < 16
      ensures RotateRow(RotateRow(s, i, k), i, 1)[m] == RotateRow(s, i, k + 1)[m]
    {
      RotatedAt(s, i, k + 1, m);
      RotatedAt(RotateRow(s, i, k), i, 1, m);
      RotatedAt(s, i, k, m);
      RowIndex(i, (m % 4 + 1) % 4);
      RotatedAt(s, i, k, 4 * i + (m % 4 + 1) % 4);
      IndexAdds(m % 4, k);
    }
  }

  lemma RowIndex(i: nat, c: nat)
    requires c < 4
    ensures (4 * i + c) / 4 == i && (4 * i + c) % 4 == c
  {
  }

  lemma RotatedAt(s: Block, i: nat, n: nat, m: nat)
    requires i < 4 && m < 16
    ensures RotateRow(s, i, n)[m] == if m / 4 == i then s[4 * i + (m % 4 + n) % 4] else s[m]
  {
  }

  lemma IndexAdds(j: nat, k: nat)
    requires j < 4
    ensures ((j + 1) % 4 + k) % 4 == (j + (k + 1)) % 4
  {
  }

  method ShiftRows(state: array<Byte>)
    requires state.Length == 16
    modifies state
    ensures state[..] == ShiftRowsOf(old(state[..]))
  {
    hide RotateRow;
    ShiftRow(state, 1, 1);
    ShiftRow(state, 2, 2);
    ShiftRow(state, 3, 3);
  }

  method InvShiftRows(state: array<Byte>)
    requires state.Length == 16
    modifies state
    ensures state[..] == InvShiftRowsOf(old(state[..]))
  {
    hide RotateRow;
    ShiftRow(state, 1, 4 - 1);
    ShiftRow(state, 2, 4 - 2);
    ShiftRow(state, 3, 4 - 3);
  }

  /** Overwrites column j. */
  method StoreColumn(state: array<Byte>, j: nat, s1: Word)
    requires state.Length == 16 && j < 4
    modifies state
    ensures forall c :: 0 <= c < 4 ==> Column(state[..], c) == if c == j then s1 else old(Column(state[..], c))
  {
    state[j] := s1.b0;
    state[4 + j] := s1.b1;
    state[8 + j] := s1.b2;
    state[12 + j] := s1.b3;
  }

  lemma BlockFromColumns(s: Block)
    ensures s == FromColumns(Column(s, 0), Column(s, 1), Column(s, 2), Column(s, 3))
  {
  }

  method MixColumn(s: Word) returns (s1: Word)
    ensures s1 == MixWord(s)
  {
    hide Xor, Mul;
    var m0 := MulBytes(2, s.b0);
    var m1 := MulBytes(3, s.b1);
    var b0 := Xor4(m0, m1, s.b2, s.b3);
    m0 := MulBytes(2, s.b1);
    m1 := MulBytes(3, s.b2);
    var b1 := Xor4(s.b0, m0, m1, s.b3);
    m0 := MulBytes(2, s.b2);
    m1 := MulBytes(3, s.b3);
    var b2 := Xor4(s.b0, s.b1, m0, m1);
    m0 := MulBytes(3, s.b0);
    m1 := MulBytes(2, s.b3);
    var b3 := Xor4(m0, s.b1, s.b2, m1);
    s1 := Word(b0, b1, b2, b3);
  }

  method MixColumns(state: array<Byte>)
    requires state.Length == 16
    modifies state
    ensures state[..] == MixColumnsOf(old(state[..]))
  {
    hide MixWord;
    var j := 0;
    while j < 4
      invariant 0 <= j <= 4
      invariant forall c :: 0 <= c < 4 ==>
        Column(state[..], c) == if c < j then MixWord(old(Column(state[..], c))) else old(Column(state[..], c))
    {
      var s1 := MixColumn(Column(state[..], j));
      StoreColumn(state, j, s1);
      j := j + 1;
    }
    BlockFromColumns(state[..]);
  }

  method InvMixRow(k: Word, s: Word) returns (b: Byte)
    ensures b == Dot(k, s)
  {
    hide Xor, Mul;
    var m0 := MulBytes(k.b0, s.b0);
    var m1 := MulBytes(k.b1, s.b1);
    var m2 := MulBytes(k.b2, s.b2);
    var m3 := MulBytes(k.b3, s.b3);
    b := Xor4(m0, m1, m2, m3);
  }

  method InvMixColumns(state: array<Byte>)
    requires state.Length == 16
    modifies state
    ensures state[..] == InvMixColumnsOf(old(state[..]))
  {
    hide Dot;
    var j := 0;
    while j < 4
      invariant 0 <= j <= 4
      invariant forall c :: 0 <= c < 4 ==>
        Column(state[..], c) == if c < j then InvMixWord(old(Column(state[..], c))) else old(Column(state[..], c))
    {
      var s := Column(state[..], j);
      var b0 := InvMixRow(Word(0x0e, 0x0b, 0x0d, 0x09), s);
      var b1 := InvMixRow(Word(0x09, 0x0e, 0x0b, 0x0d), s);
      var b2 := InvMixRow(Word(0x0d, 0x09, 0x0e, 0x0b), s);
      var b3 := InvMixRow(Word(0x0b, 0x0d, 0x09, 0x0e), s);
      StoreColumn(state, j, Word(b0, b1, b2, b3));
      j := j + 1;
    }
    BlockFromColumns(state[..]);
  }

  method AddRoundKey(state: array<Byte>, w: array<Byte>, off: nat)
    requires state.Length == 16 && off + 16 <= w.Length && state != w
    modifies state
    ensures state[..] == AddRoundKeyOf(old(state[..]), w[..], off)
  {
    hide Xor;
    var i := 0;
    while i < 4
      invariant 0 <= i <= 4
      invariant forall k :: 0 <= k < 16 ==>
        state[k] == if k < 4 * i then Xor(old(state[k]), w[off + k / 4 + 4 * (k % 4)]) else old(state[k])
    {
      var j := 0;
      while j < 4
        invariant 0 <= j <= 4
        invariant forall k :: 0 <= k < 16 ==>
          state[k] == if k < 4 * i + j then Xor(old(state[k]), w[off + k / 4 + 4 * (k % 4)]) else old(state[k])
      {
        assert (4 * i + j) / 4 == i && (4 * i + j) % 4 == j;
        state[4 * i + j] := Xor(state[4 * i + j], w[off + i + 4 * j]);
        j := j + 1;
      }
      i := i + 1;
    }
  }

  /** state[i][j] = in[i + 4j] */
  method LoadState(inp: array<Byte>, off: nat, state: array<Byte>)
    requires state.Length == 16 && off + 16 <= inp.Length && state != inp
    modifies state
    ensures state[..] == Transposed(inp[off..off + 16])
  {
    var i := 0;
    while i < 4
      invariant 0 <= i <= 4
      invariant forall k :: 0 <= k < 4 * i ==> state[k] == inp[off + k / 4 + 4 * (k % 4)]
    {
      var j := 0;
      while j < 4
        invariant 0 <= j <= 4
        invariant forall k :: 0 <= k < 4 * i + j ==> state[k] == inp[off + k / 4 + 4 * (k % 4)]
      {
        assert (4 * i + j) / 4 == i && (4 * i + j) % 4 == j;
        state[4 * i + j] := inp[off + i + 4 * j];
        j := j + 1;
      }
      i := i + 1;
    }
  }

  /** out[i + 4j] = state[i][j] */
  method UnloadState(state: array<Byte>, out: array<Byte>, off: nat)
    requires state.Length == 16 && off + 16 <= out.Length && state != out
    modifies out
    ensures out[..] == old(out[..off]) + Transposed(state[..]) + old(out[off + 16..])
  {
    var i := 0;
    while i < 4
      invariant 0 <= i <= 4
      invariant forall k :: 0 <= k < off || off + 16 <= k < out.Length ==> out[k] == old(out[k])
      invariant forall k :: 0 <= k < 16 && k % 4 < i ==> out[off + k] == state[k / 4 + 4 * (k % 4)]
    {
      var j := 0;
      while j < 4
        invariant 0 <= j <= 4
        invariant forall k :: 0 <= k < off || off + 16 <= k < out.Length ==> out[k] == old(out[k])
        invariant forall k :: 0 <= k < 16 && (k % 4 < i || (k % 4 == i && k / 4 < j)) ==>
          out[off + k] == state[k / 4 + 4 * (k % 4)]
      {
        assert (i + 4 * j) / 4 == j && (i + 4 * j) % 4 == i;
        out[off + i + 4 * j] := state[4 * i + j];
        j := j + 1;
      }
      i := i + 1;
    }
  }
}
