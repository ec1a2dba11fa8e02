/** One turn of the receive loops: `recv` into a buffer, terminate it, append it as a C string. */
module Socket {
  import opened Text

  const BUFFER_SIZE := 8192

  method AppendRead(buffer: array<char>, chunk: string, response: string) returns (r: string)
    requires |chunk| < buffer.Length
    modifies buffer
    ensures r == response + CString(chunk)
  {
    Recv(buffer, chunk);
    buffer[|chunk|] := '\0';
    assert buffer[..] == chunk + ['\0'] + buffer[|chunk| + 1..];
    CStringOfBuffer(chunk, buffer[|chunk| + 1..]);
    r := response + CString(buffer[..]);
  }

  /** `recv` fills the front of the buffer and leaves the rest as it was. */
  method Recv(buffer: array<char>, chunk: string)
    requires |chunk| <= buffer.Length
    modifies buffer
    ensures buffer[..] == chunk + old(buffer[|chunk|..])
  {
    for k := 0 to |chunk|
      invariant forall j :: 0 <= j < k ==> buffer[j] == chunk[j]
      invariant forall j :: k <= j < buffer.Length ==> buffer[j] == old(buffer[j])
    {
      buffer[k] := chunk[k];
    }
  }

  /** Stale bytes after the terminator never get into the response. */
  lemma CStringOfBuffer(chunk: string, stale: string)
    ensures CString(chunk + ['\0'] + stale) == CString(chunk)
  {
    if chunk != "" && chunk[0] != '\0' {
      CStringOfBuffer(chunk[1..], stale);
      assert (chunk + ['\0'] + stale)[1..] == chunk[1..] + ['\0'] + stale;
    }
  }
}
