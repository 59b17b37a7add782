/** UnixSocket.cpp: a path in the fixed buffer of a sockaddr_un, and back. */
module UnixSockets {
  import opened Posix
  import opened Text

  const SUN_PATH := 108
  const FAMILY_SIZE := 2
  const AF_LOCAL := 1
  const SIZE_LIMIT := 0x1_0000_0000_0000_0000
  const LONGEST_STRING := 0x3fff_ffff_ffff_ffff

  class SockaddrUn {
    var family: nat
    const sunPath: array<char>

    constructor ()
      ensures sunPath.Length == SUN_PATH && fresh(sunPath)
    {
      family, sunPath := 0, new char[SUN_PATH](_ => '\0');
    }
  }

  /** The buffer after strcpy of `path`. */
  function Filled(buffer: string, path: string): string
    requires |path| < |buffer|
  {
    UpToPrefix(path, '\0');
    UpTo(path, '\0') + ['\0'] + buffer[|UpTo(path, '\0')| + 1..]
  }

  method FillAddress(path: string, addr: SockaddrUn) returns (r: Outcome<()>)
    requires addr.sunPath.Length == SUN_PATH
    modifies addr, addr.sunPath
    ensures |path| >= SUN_PATH ==>
              r == Thrown(Plain) && addr.family == old(addr.family) && addr.sunPath[..] == old(addr.sunPath[..])
    ensures |path| < SUN_PATH ==>
              r == Returned(()) && addr.family == AF_LOCAL && addr.sunPath[..] == Filled(old(addr.sunPath[..]), path)
  {
    if |path| >= SUN_PATH {
      return Thrown(Plain);
    }
    addr.family := AF_LOCAL;
    var text := UpTo(path, '\0');
    UpToPrefix(path, '\0');
    forall i | 0 <= i < |text| { addr.sunPath[i] := text[i]; }
    addr.sunPath[|text|] := '\0';
    return Returned(());
  }

  datatype Extracted = Path(path: string) | LengthError | Overread

  /** extractPath: the size of the text is computed without sign in 64 bits. */
  function ExtractPath(buffer: string, length: nat): Extracted {
    var size := (length - FAMILY_SIZE - 1) % SIZE_LIMIT;
    if size > LONGEST_STRING then LengthError
    else if size > |buffer| then Overread
    else Path(buffer[..size])
  }

  /** The length that the kernel reports for a path: the family, the text and its NUL. */
  function KernelLength(buffer: string): nat {
    FAMILY_SIZE + |UpTo(buffer, '\0')| + 1
  }

  /** Filling and extracting with the kernel's length gives the path up to its first NUL, so it gives the
      path back exactly when there is no NUL in it. */
  lemma PathRoundTrip(buffer: string, path: string)
    requires |buffer| == SUN_PATH && |path| < SUN_PATH
    ensures var filled := Filled(buffer, path);
      && |filled| == SUN_PATH
      && ExtractPath(filled, KernelLength(filled)) == Path(UpTo(path, '\0'))
      && (ExtractPath(filled, KernelLength(filled)) == Path(path) <==> '\0' !in path)
  {
    hide UpTo;
    var text := UpTo(path, '\0');
    UpToPrefix(path, '\0');
    var filled := text + ['\0'] + buffer[|text| + 1..];
    UpToStops(text, buffer[|text| + 1..], '\0');
    assert filled[..|text|] == text;
    assert (FAMILY_SIZE + |text| + 1 - FAMILY_SIZE - 1) % SIZE_LIMIT == |text|;
    assert ExtractPath(filled, FAMILY_SIZE + |text| + 1) == Path(text);
  }

  /** For the lengths a socklen_t can hold, a path is read exactly when the length covers the family and a
      NUL and the text is inside the buffer.  Below that the subtraction wraps around. */
  lemma ExtractExactly(buffer: string, length: nat)
    requires |buffer| == SUN_PATH && length < 0x1_0000_0000
    ensures ExtractPath(buffer, length).LengthError? <==> length < FAMILY_SIZE + 1
    ensures ExtractPath(buffer, length).Path? <==> FAMILY_SIZE + 1 <= length <= FAMILY_SIZE + 1 + SUN_PATH
    ensures ExtractPath(buffer, length).Path? ==>
              ExtractPath(buffer, length).path == buffer[..length - FAMILY_SIZE - 1]
  {
    if length < FAMILY_SIZE + 1 {
      assert (length - FAMILY_SIZE - 1) % SIZE_LIMIT == length - FAMILY_SIZE - 1 + SIZE_LIMIT;
    }
  }
}
