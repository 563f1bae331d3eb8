/**
  radvd's growing buffers.  A call that would make one larger than any message ends the
  program: the methods return false, and nothing has been written.
 */
module SafeBuffer {
  import NatEntry

  type Byte = NatEntry.Byte
  type Bytes = seq<Byte>

  const BLOCK := 64
  const MAX := 64 * 1024
  /** size_t */
  const SIZES := 0x1_0000_0000_0000_0000

  /** The least number of whole blocks */
  function Rounded(n: nat): (r: nat)
    ensures r % BLOCK == 0 && n <= r < n + BLOCK && (r <= MAX <==> n <= MAX)
  {
    if n % BLOCK > 0 then n - n % BLOCK + (BLOCK - 1) + 1 else n
  }

  class Buffer {
    var data: array<Byte>
    var used: nat

    ghost predicate Valid()
      reads this
    {
      used <= data.Length <= MAX
    }

    function Contents(): (s: Bytes)
      requires Valid()
      reads this, data
      ensures |s| == used
    {
      data[..used]
    }

    constructor ()
      ensures Valid() && Contents() == [] && fresh(data) && data.Length == 0
    {
      data, used := new Byte[0], 0;
    }

    method Resize(n: nat) returns (alive: bool)
      requires Valid()
      modifies this`data
      ensures Valid() && Contents() == old(Contents())
      ensures if n <= old(data.Length) then data == old(data) else data == old(data) || fresh(data)
      ensures alive <==> n <= MAX
      ensures alive ==> data.Length >= n
      ensures data.Length == if alive && n > old(data.Length) then Rounded(n) else old(data.Length)
    {
      if data.Length < n {
        var size := n;
        if size % BLOCK > 0 {
          size := size - size % BLOCK + (BLOCK - 1);
          size := size + 1;
        }
        if size > MAX {
          return false;
        }
        var larger := new Byte[size];
        for i := 0 to used
          invariant Valid() && larger != data && size == larger.Length && Contents() == old(Contents())
          invariant larger[..i] == data[..i]
        {
          larger[i] := data[i];
        }
        assert larger[..used] == data[..used];
        data := larger;
      }
      alive := true;
    }

    method Append(v: Bytes) returns (alive: bool)
      requires Valid()
      modifies this, data
      ensures Valid() && (data == old(data) || fresh(data))
      ensures alive <==> old(used) + |v| <= MAX
      ensures Contents() == if alive then old(Contents()) + v else old(Contents())
      ensures old(used) + |v| <= old(data.Length) ==> data == old(data)
    {
      alive := Resize(used + |v|);
      if alive {
        ghost var d := data;
        for i := 0 to |v|
          invariant data == d && used == old(used)
          invariant Contents() == old(Contents()) && data[used..used + i] == v[..i]
        {
          data[used + i] := v[i];
        }
        assert data[..used + |v|] == data[..used] + data[used..used + |v|];
        used := used + |v|;
      }
    }

    /** Zeros.  A count that goes round the range of size_t is taken for a small one by the resizing, but not
        by the filling */
    method Pad(count: nat) returns (alive: bool)
      requires Valid()
      modifies this, data
      ensures Valid() && (data == old(data) || fresh(data))
      ensures alive ==> Contents() == old(Contents()) + Zeros(count)
      ensures old(used) + count <= old(data.Length) ==> alive
      ensures old(used) + count >= SIZES > old(data.Length) ==> !alive
    {
      alive := Resize((used + count) % SIZES);
      if !alive || used + count > data.Length {
        return false;
      }
      ghost var d := data;
      for i := 0 to count
        invariant data == d && used == old(used)
        invariant Contents() == old(Contents()) && data[used..used + i] == Zeros(i)
      {
        data[used + i] := 0;
      }
      assert data[..used + count] == data[..used] + data[used..used + count];
      used := used + count;
    }
  }

  function Zeros(n: nat): (r: Bytes)
    ensures |r| == n
  {
    seq(n, _ => 0 as Byte)
  }
}
