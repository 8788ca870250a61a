/** The receive buffer that verify_simple_local_data and auth_simple_local_data share. */
module Reception {
  import opened Bits
  import opened Buffers
  import opened Framing

  const BUFFER_SIZE: nat := 16384

  /** recv_buffer and recv_buffer_size */
  class ReceiveBuffer {
    const data: array<byte>
    var size: nat

    ghost predicate Valid()
      reads this
    {
      data.Length == BUFFER_SIZE && size <= BUFFER_SIZE
    }

    ghost function Contents(): seq<byte>
      requires Valid()
      reads this, data
    {
      data[..size]
    }

    constructor ()
      ensures Valid() && Contents() == [] && fresh(data)
    {
      data := new byte[BUFFER_SIZE];
      size := 0;
    }

    /** Appends what arrived. */
    method Append(plaindata: seq<byte>)
      requires Valid() && size + |plaindata| <= BUFFER_SIZE
      modifies this, data
      ensures Valid() && Contents() == old(Contents()) + plaindata
    {
      CopyInto(data, size, plaindata);
      size := size + |plaindata|;
    }

    /** Shifts a consumed frame out of the buffer. */
    method Consume(length: nat)
      requires Valid() && length <= size
      modifies this, data
      ensures Valid() && Contents() == old(Contents())[length..]
    {
      size := size - length;
      Move(data, 0, length, size);
    }

    /** Forgets everything, as after a rejected frame. */
    method Clear()
      requires Valid()
      modifies this
      ensures Valid() && Contents() == []
    {
      size := 0;
    }
  }

  /** What is left in the buffer after one turn of a post_decrypt loop. */
  function Remaining(p: Peeled<uint32>, x: seq<byte>): seq<byte> {
    match p
    case Frame(n, _, _) => if n <= |x| then x[n..] else x
    case Bad => []
    case _ => x
  }

  /** What a post_decrypt call answers for the bytes `x` in its buffer. */
  ghost predicate Answers(d: Drained<uint32>, status: Status, out: seq<byte>, rest: seq<byte>) {
    && status == d.status
    && (status == Ok ==> out == d.out && rest == d.rest)
    && (status == Rejected ==> out == [] && rest == [])
  }
}
