/** Writing a fixed array from front to back. */
module Buffers {
  import opened Words

  /** Copies `data` behind the `at` bytes already written over `was`. */
  method Append(output: array<uint8>, at: nat, data: seq<uint8>, ghost written: seq<uint8>, ghost was: seq<uint8>)
    requires at + |data| <= output.Length == |was| && |written| == at
    requires output[..] == written + was[at..]
    modifies output
    ensures output[..] == (written + data) + was[at + |data|..]
  {
    for i := 0 to |data|
      invariant output[..] == (written + data[..i]) + was[at + i..]
    {
      output[at + i] := data[i];
      assert output[..] == (written + data[..i]) + was[at + i..][0 := data[i]];
      assert was[at + i..][0 := data[i]] == [data[i]] + was[at + i + 1..];
      assert data[..i + 1] == data[..i] + [data[i]];
    }
    assert data[..|data|] == data;
  }
}
