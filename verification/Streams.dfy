/**
 Byte streams as the codecs see them: a reader that delivers a finite stream in chunks of
 any size and then end-of-file, and a buffer that writers append to.
 */
module Streams {
  import opened Results
  import opened Bytes

  class Reader {
    const data: seq<byte>
    var pos: nat

    ghost predicate Valid()
      reads this
    {
      pos <= |data|
    }

    /** The bytes not yet read. */
    function Rest(): seq<byte>
      requires Valid()
      reads this
    {
      data[pos..]
    }

    constructor (data: seq<byte>)
      ensures Valid() && Rest() == data
    {
      this.data := data;
      pos := 0;
    }

    /** One read call: between one and `want` bytes, at the transport's discretion. */
    method ReadSome(want: nat) returns (chunk: seq<byte>)
      requires Valid() && want > 0
      modifies this
      ensures Valid()
      ensures old(Rest()) == chunk + Rest()
      ensures |chunk| <= want
      ensures chunk == [] <==> old(Rest()) == []
    {
      var limit := if want < |data| - pos then want else |data| - pos;
      var n: nat := limit;
      if limit > 1 {
        n :| 1 <= n <= limit;
      }
      chunk := data[pos..pos + n];
      pos := pos + n;
    }

    /** Reads exactly n bytes however the chunks fall, or everything left when there are fewer. */
    method ReadFull(n: nat) returns (r: Option<seq<byte>>)
      requires Valid()
      modifies this
      ensures Valid()
      ensures n <= |old(Rest())| ==> r == Some(old(Rest())[..n]) && Rest() == old(Rest())[n..]
      ensures n > |old(Rest())| ==> r == None && Rest() == []
    {
      var got: seq<byte> := [];
      ghost var all := Rest();
      while |got| < n
        invariant Valid()
        invariant |got| <= n
        invariant all == got + Rest()
      {
        var chunk := ReadSome(n - |got|);
        if chunk == [] {
          return None;
        }
        Regroup(got, chunk, Rest());
        got := got + chunk;
      }
      assert all[..n] == got && all[n..] == Rest();
      return Some(got);
    }
  }

  lemma Regroup(a: seq<byte>, b: seq<byte>, c: seq<byte>)
    ensures a + (b + c) == a + b + c
  {
  }

  class Buffer {
    var bytes: seq<byte>

    constructor ()
      ensures bytes == []
    {
      bytes := [];
    }

    method Write(chunk: seq<byte>)
      modifies this
      ensures bytes == old(bytes) + chunk
    {
      bytes := bytes + chunk;
    }
  }
}
