/** Moving 96-byte messages over a stream socket that transfers as much or as little as it likes. */
module MessageStream {

  type Block = b: seq<char> | |b| == 96 witness seq(96, _ => '\0')

  /**
   One direction of a stream socket: everything written, and how much of it has been read. How much each transfer is
   granted, 0 or less for a failure, is fixed beforehand, but unknown.
   */
  class Stream {
    const grants: nat -> int
    var calls: nat
    var written: seq<char>
    var readPos: nat

    ghost predicate Valid()
      reads this
    {
      readPos <= |written|
    }

    constructor (grants: nat -> int)
      ensures Valid() && written == [] && readPos == 0 && calls == 0 && this.grants == grants
    {
      this.grants := grants;
      calls, written, readPos := 0, [], 0;
    }

    /** No transfer since `from` has failed. */
    ghost predicate Flowing(from: nat)
      reads this
    {
      forall n :: from <= n < calls ==> grants(n) > 0
    }

    /** Takes a non-empty prefix of the data, or fails taking nothing. */
    method Send(data: seq<char>) returns (n: int)
      requires Valid() && data != []
      modifies this
      ensures Valid() && readPos == old(readPos) && n <= |data| && calls == old(calls) + 1
      ensures n > 0 <==> grants(old(calls)) > 0
      ensures written == if n > 0 then old(written) + data[..n] else old(written)
    {
      n := grants(calls);
      calls := calls + 1;
      if n > |data| { n := |data|; }
      if n > 0 { written := written + data[..n]; }
    }

    /** Delivers some of the unread bytes, at most `max`, or fails. */
    method Recv(max: nat) returns (n: int, data: seq<char>)
      requires Valid() && max > 0
      modifies this
      ensures Valid() && written == old(written) && calls == old(calls) + 1
      ensures n > 0 <==> grants(old(calls)) > 0 && old(readPos) < |written|
      ensures n > 0 ==> n <= max && readPos == old(readPos) + n <= |written| && data == written[old(readPos)..readPos]
      ensures n <= 0 ==> readPos == old(readPos)
    {
      var available := |written| - readPos;
      n := grants(calls);
      calls := calls + 1;
      if n > max { n := max; }
      if n > available { n := available; }
      data := [];
      if n > 0 {
        data := written[readPos..readPos + n];
        readPos := readPos + n;
      }
    }

    /** Unless a transfer fails the whole message is appended; a failure may leave a proper prefix of it. */
    method TrySendMsg(p: Block) returns (ok: bool)
      requires Valid()
      modifies this
      ensures Valid() && readPos == old(readPos) && calls >= old(calls)
      ensures ok <==> Flowing(old(calls))
      ensures ok ==> written == old(written) + p
      ensures !ok ==> exists k :: 0 <= k < 96 && written == old(written) + p[..k]
    {
      ghost var from := calls;
      var sent: nat, rem: nat := 0, 96;
      while rem > 0
        invariant Valid() && readPos == old(readPos) && calls >= from && Flowing(from)
        invariant sent + rem == 96 && written == old(written) + p[..sent]
      {
        var n := Send(p[sent..]);
        if n <= 0 {
          assert grants(calls - 1) <= 0;
          return false;
        }
        assert p[..sent] + p[sent..][..n] == p[..sent + n];
        sent, rem := sent + n, rem - n;
      }
      assert p[..96] == p;
      return true;
    }

    /**
     Exactly the next 96 bytes are read if they are there and no transfer fails. A failed receive may have consumed some
     of them.
     */
    method RecvMsg() returns (ok: bool, p: seq<char>)
      requires Valid()
      modifies this
      ensures Valid() && written == old(written) && old(readPos) <= readPos && calls >= old(calls)
      ensures ok <==> Flowing(old(calls)) && old(readPos) + 96 <= |written|
      ensures ok ==> readPos == old(readPos) + 96 && p == written[old(readPos)..readPos]
    {
      ghost var from := calls;
      p := [];
      var rem: nat := 96;
      while rem > 0
        invariant Valid() && written == old(written) && calls >= from && Flowing(from)
        invariant |p| + rem == 96 && readPos == old(readPos) + |p| && p == written[old(readPos)..readPos]
      {
        var n, data := Recv(rem);
        if n <= 0 {
          assert grants(calls - 1) <= 0 || readPos == |written|;
          return false, p;
        }
        p := p + data;
        rem := rem - n;
      }
      return true, p;
    }

    /** What an exchange of `msgs` has reached: `sent` of them written, `got` read. */
    ghost predicate Reached(msgs: seq<Block>, sent: nat, got: seq<Block>)
      reads this
    {
      && |got| <= sent <= |msgs| && got == msgs[..|got|]
      && written == Flatten(msgs[..sent]) && readPos == 96 * |got|
    }

    method SendNext(msgs: seq<Block>, sent: nat, ghost got: seq<Block>) returns (ok: bool)
      requires Valid() && Reached(msgs, sent, got) && sent < |msgs|
      modifies this
      ensures Valid() && calls >= old(calls)
      ensures ok <==> Flowing(old(calls))
      ensures ok ==> Reached(msgs, sent + 1, got)
    {
      ok := TrySendMsg(msgs[sent]);
      assert msgs[..sent + 1][..sent] == msgs[..sent];
    }

    /** A successful receive returns the oldest unread message; there is one if fewer were read than sent. */
    method RecvNext(ghost msgs: seq<Block>, ghost sent: nat, got: seq<Block>) returns (ok: bool, got': seq<Block>)
      requires Valid() && Reached(msgs, sent, got)
      modifies this
      ensures Valid() && calls >= old(calls)
      ensures ok <==> Flowing(old(calls)) && |got| < sent
      ensures ok ==> Reached(msgs, sent, got') && |got'| == |got| + 1
      ensures !ok ==> got' == got
    {
      var p;
      ok, p := RecvMsg();
      got' := got;
      FlattenLength(msgs[..sent]);
      if ok {
        FrameAt(msgs[..sent], |got|);
        got' := got + [p];
      }
    }

    /**
     Any order of sends and receives, any partial transfers: the messages come out whole, in the order they went in. All
     receives asked for succeed when no transfer fails and each comes after its send.
     */
    method Exchange(msgs: seq<Block>, turns: seq<Turn>) returns (got: seq<Block>)
      requires Valid() && written == [] && readPos == 0
      modifies this
      ensures |got| <= |msgs| && got == msgs[..|got|]
      ensures Flowing(old(calls)) && Sensible(turns, |msgs|) ==> |got| == Count(turns, Receiving)
    {
      ghost var from := calls;
      got := [];
      var sent: nat := 0;
      for n := 0 to |turns|
        invariant Valid() && Reached(msgs, sent, got) && calls >= from && Flowing(from)
        invariant sent == Count(turns[..n], Sending) && |got| == Count(turns[..n], Receiving)
      {
        assert turns[..n + 1][..n] == turns[..n];
        ghost var before := calls;
        if turns[n] == Sending {
          if sent == |msgs| {
            assert Count(turns[..n + 1], Sending) > |msgs|;
            return;
          }
          var ok := SendNext(msgs, sent, got);
          if !ok { return; }
          sent := sent + 1;
        } else {
          var ok, got' := RecvNext(msgs, sent, got);
          if !ok {
            assert Flowing(before) ==> Count(turns[..n + 1], Receiving) > Count(turns[..n + 1], Sending);
            return;
          }
          got := got';
        }
      }
      assert turns[..|turns|] == turns;
    }
  }

  datatype Turn = Sending | Receiving

  function Count(turns: seq<Turn>, t: Turn): nat {
    if turns == [] then 0
    else Count(turns[..|turns| - 1], t) + if turns[|turns| - 1] == t then 1 else 0
  }

  /** Each receive comes after the send of its message, and no more than `n` messages are sent. */
  ghost predicate Sensible(turns: seq<Turn>, n: nat) {
    forall k :: 0 <= k <= |turns| ==> Count(turns[..k], Receiving) <= Count(turns[..k], Sending) <= n
  }

  ghost function Flatten(blocks: seq<Block>): seq<char> {
    if blocks == [] then [] else Flatten(blocks[..|blocks| - 1]) + blocks[|blocks| - 1]
  }

  lemma {:induction false} FlattenLength(blocks: seq<Block>)
    ensures |Flatten(blocks)| == 96 * |blocks|
  {
    if blocks != [] { FlattenLength(blocks[..|blocks| - 1]); }
  }

  /** The k-th run of 96 bytes is the k-th message. */
  lemma {:induction false} FrameAt(blocks: seq<Block>, k: nat)
    requires k < |blocks|
    ensures 96 * k + 96 <= |Flatten(blocks)|
    ensures Flatten(blocks)[96 * k..96 * k + 96] == blocks[k]
  {
    var n := |blocks| - 1;
    FlattenLength(blocks);
    FlattenLength(blocks[..n]);
    var front := Flatten(blocks[..n]);
    if k < n {
      FrameAt(blocks[..n], k);
      assert Flatten(blocks)[96 * k..96 * k + 96] == front[96 * k..96 * k + 96];
    } else {
      assert Flatten(blocks)[|front|..|front| + 96] == blocks[n];
    }
  }
}
