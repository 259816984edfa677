/**
 The C++ objects the codec mutates: an out-parameter, a `std::string` that is only appended to,
 and a `std::string_view`. A pointer is an index into an array, a null pointer is `None`.
 */
module Memory {
  import opened Words

  /** The target of an out-parameter: `*value = v` is `value.val := v`. */
  class Ref<T> {
    var val: T

    constructor (val: T)
      ensures this.val == val
    {
      this.val := val;
    }
  }

  /** What a write of `bs` at `at` makes of a buffer. */
  function Overwrite(s: seq<uint8>, at: nat, bs: seq<uint8>): (r: seq<uint8>)
    requires at + |bs| <= |s|
    ensures |r| == |s|
    ensures r[at..at + |bs|] == bs
    ensures r[..at] == s[..at] && r[at + |bs|..] == s[at + |bs|..]
  {
    s[..at] + bs + s[at + |bs|..]
  }

  lemma {:induction false} Stored(before: seq<uint8>, after: seq<uint8>, at: nat, bs: seq<uint8>)
    requires at + |bs| <= |before| == |after|
    requires forall i :: 0 <= i < |bs| ==> after[at + i] == bs[i]
    requires forall i :: 0 <= i < at || at + |bs| <= i < |before| ==> after[i] == before[i]
    ensures after == Overwrite(before, at, bs)
  {
  }

  lemma {:induction false} OverwriteMore(before: seq<uint8>, at: nat, bs: seq<uint8>, b: uint8)
    requires at + |bs| < |before|
    ensures Overwrite(before, at, bs)[at + |bs| := b] == Overwrite(before, at, bs + [b])
  {
  }

  /** `std::string`, as far as the writers use it. */
  class StringBuffer {
    var bytes: seq<uint8>

    constructor ()
      ensures bytes == []
    {
      bytes := [];
    }

    /** `append(data + start, n)` */
    method Append(data: array<uint8>, start: nat, n: nat)
      requires start + n <= data.Length
      modifies this
      ensures bytes == old(bytes) + data[start..start + n]
    {
      bytes := bytes + data[start..start + n];
    }
  }

  /** `std::string_view`: a window of `size` bytes at `start`. It does not own the bytes. */
  class StringView {
    var data: array<uint8>
    var start: nat
    var size: nat

    predicate Valid()
      reads this
    {
      start + size <= data.Length
    }

    function View(): seq<uint8>
      requires Valid()
      reads this, data
    {
      data[start..start + size]
    }

    constructor (data: array<uint8>, start: nat, size: nat)
      requires start + size <= data.Length
      ensures Valid()
      ensures this.data == data && this.start == start && this.size == size
    {
      this.data, this.start, this.size := data, start, size;
    }

    /** `*this = std::string_view(data + start, size)` */
    method Assign(data: array<uint8>, start: nat, size: nat)
      requires start + size <= data.Length
      modifies this
      ensures Valid()
      ensures this.data == data && this.start == start && this.size == size
    {
      this.data, this.start, this.size := data, start, size;
    }

    /** `remove_prefix(n)` */
    method RemovePrefix(n: nat)
      requires Valid() && n <= size
      modifies this
      ensures Valid() && data == old(data) && start == old(start) + n && size == old(size) - n
      ensures View() == old(View())[n..]
    {
      start, size := start + n, size - n;
    }
  }
}
