/**
  The two resource-guarding types of the hardened build: `SecureBuffer`, a zero-filled
  byte buffer of bounded size that is wiped before it is released, and `SecureString`,
  a bounded immutable string with checked access and a comparison that always scans
  the whole string.
*/
module SecureTypes {
  import opened Wrappers

  /** The largest buffer `SecureBuffer` allocates: 100 MiB. */
  const MaxBufferSize: nat := 100 * 1024 * 1024
  /** The longest string `SecureString` holds: 50 MiB. */
  const MaxStringLength: nat := 50 * 1024 * 1024
  /** `std::string::npos`, the default length of `substr`. */
  const Npos: nat := 0x1_0000_0000_0000_0000 - 1

  const BufferTooLarge := "Input too large"
  const StringTooLarge := "String too large"
  const OutOfBounds := "SecureString access out of bounds"
  const SubstrOutOfRange := "basic_string::substr"

  /** A heap buffer of `size` bytes, filled with zeros on creation and wiped on release. */
  class SecureBuffer {
    const data: array<bv8>
    const size: nat

    ghost predicate Valid()
    {
      data.Length == size <= MaxBufferSize
    }

    /** The constructor past its size check: the buffer is allocated and every byte set to 0. */
    constructor (s: nat)
      requires s <= MaxBufferSize
      ensures Valid() && size == s && fresh(data)
      ensures forall i :: 0 <= i < size ==> data[i] == 0
    {
      size := s;
      var bytes := new bv8[s];
      for i := 0 to s
        invariant forall k :: 0 <= k < i ==> bytes[k] == 0
      {
        bytes[i] := 0;
      }
      data := bytes;
    }

    /** `SecureBuffer(s)`: a request above 100 MiB throws, any other yields a zeroed buffer of `s` bytes. */
    static method Create(s: nat) returns (r: Result<SecureBuffer>)
      ensures r.Failure? <==> s > MaxBufferSize
      ensures r.Failure? ==> r.message == BufferTooLarge
      ensures r.Success? ==> fresh(r.value) && fresh(r.value.data) && r.value.Valid() && r.value.size == s
      ensures r.Success? ==> forall i :: 0 <= i < s ==> r.value.data[i] == 0
    {
      if s > MaxBufferSize {
        return Failure(BufferTooLarge);
      }
      var buffer := new SecureBuffer(s);
      return Success(buffer);
    }

    /** `get`: the storage itself, through which callers read and write the bytes. */
    method Get() returns (p: array<bv8>)
      requires Valid()
      ensures p == data && p.Length == size
    {
      return data;
    }

    /** `get_size`: the number of bytes the storage holds. */
    function GetSize(): (n: nat)
      requires Valid()
      ensures n == data.Length && n <= MaxBufferSize
    {
      size
    }

    /** The destructor's `secure_wipe`: every byte is overwritten with 0; the size stays. */
    method SecureWipe()
      requires Valid()
      modifies data
      ensures Valid()
      ensures forall i :: 0 <= i < size ==> data[i] == 0
    {
      for i := 0 to size
        invariant forall k :: 0 <= k < i ==> data[k] == 0
      {
        data[i] := 0;
      }
    }
  }

  /**
    The bytes a `SecureString` holds; they never change after construction. The
    string is kept as bytes, as `std::string` keeps them, so that `equals` can XOR them.
  */
  datatype SecureString = SecureString(data: seq<bv8>)
  {
    /** `length`. */
    function Length(): (n: nat)
      ensures n == |data|
    {
      |data|
    }

    /** `empty`: no character at all. */
    predicate Empty()
    {
      data == []
    }

    /** `at`: the character at `pos`, or `std::out_of_range` past the end. */
    function At(pos: nat): (r: Result<bv8>)
      ensures r.Success? <==> pos < Length()
      ensures r.Success? ==> r.value == data[pos]
      ensures r.Failure? ==> r.message == OutOfBounds
    {
      if pos >= |data| then Failure(OutOfBounds) else Success(data[pos])
    }

    /**
      `substr(pos, len)`: at most `len` characters from `pos` on; `std::out_of_range`
      only when `pos` is past the end (a `pos` equal to the length gives "").
    */
    function Substr(pos: nat, len: nat := Npos): (r: Result<seq<bv8>>)
      ensures r.Success? <==> pos <= Length()
      ensures r.Success? ==> |r.value| == (if len < |data| - pos then len else |data| - pos)
      ensures r.Success? ==> r.value <= data[pos..]
    {
      if pos > |data| then Failure(SubstrOutOfRange)
      else if len < |data| - pos then Success(data[pos..pos + len])
      else Success(data[pos..])
    }

    /** `equals`: unequal lengths answer at once; otherwise the XOR differences of every position are OR-ed together. */
    method Equals(other: seq<bv8>) returns (eq: bool)
      ensures eq <==> other == data
    {
      if |data| != |other| {
        return false;
      }
      var result: bv32 := 0;
      for i := 0 to |data|
        invariant result == 0 <==> data[..i] == other[..i]
      {
        assert data[..i + 1] == data[..i] + [data[i]] && other[..i + 1] == other[..i] + [other[i]];
        result := result | ((data[i] as bv32) ^ (other[i] as bv32));
      }
      assert data[..|data|] == data && other[..|other|] == other;
      return result == 0;
    }
  }

  /** `SecureString(str)`: more than 50 MiB throws, anything else is kept as it is. */
  function CreateString(str: seq<bv8>): (r: Result<SecureString>)
    ensures r.Failure? <==> |str| > MaxStringLength
    ensures r.Failure? ==> r.message == StringTooLarge
    ensures r.Success? ==> r.value.data == str && r.value.Length() <= MaxStringLength
  {
    if |str| > MaxStringLength then Failure(StringTooLarge) else Success(SecureString(str))
  }

  /** `empty` holds exactly when `length` is 0, and a whole-string `substr` gives the string back. */
  lemma EmptyAndWhole(s: SecureString)
    requires s.Length() <= MaxStringLength
    ensures s.Empty() <==> s.Length() == 0
    ensures s.Substr(0) == Success(s.data)
  {
  }
}
