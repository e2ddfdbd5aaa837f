/**
 * String helpers (strnew.h, strnew.cpp): the `APPEND_SLASH` macro, which
 * terminates a path held in a character buffer with a separator, and
 * `strnew`, which duplicates a NUL-terminated string.
 */
module StrNew {

  import opened Wrappers

  /** The platforms strnew.h knows (any other stops the build with `#error`). */
  datatype Os = Linux | Win32

  /** `PATH_SEPARATOR`. */
  function PathSeparator(os: Os): char
  {
    match os
    case Linux => '/'
    case Win32 => '\\'
  }

  /** The path already ends in `'/'` or in the platform separator. */
  predicate EndsWithSeparator(path: string, os: Os)
  {
    |path| > 0 && (path[|path| - 1] == '/' || path[|path| - 1] == PathSeparator(os))
  }

  /** The path `APPEND_SLASH` leaves in the first `len` characters of the buffer. */
  function WithSlash(path: string, os: Os): string
  {
    if |path| == 0 || EndsWithSeparator(path, os) then path else path + [PathSeparator(os)]
  }

  /**
   * `APPEND_SLASH(str, len)`: when the path `str[..len]` is non-empty and
   * does not end in a separator, writes the separator at `str[len]`, a NUL
   * at `str[len + 1]` and increments `len`; otherwise changes nothing.
   * The buffer must have room for the two characters written.
   */
  method AppendSlash(str: array<char>, len: nat, os: Os) returns (newLen: nat)
    requires len <= str.Length
    requires len > 0 && !EndsWithSeparator(str[..len], os) ==> len + 1 < str.Length
    modifies str
    ensures newLen == len || (newLen == len + 1 && newLen < str.Length)
    ensures str[..newLen] == WithSlash(old(str[..len]), os)
    ensures newLen == len ==> str[..] == old(str[..])
    ensures newLen != len ==> str[newLen] == '\0'
    ensures newLen != len ==> str[newLen + 1..] == old(str[newLen + 1..])
  {
    newLen := len;
    if len > 0 && str[len - 1] != '/' && str[len - 1] != PathSeparator(os) {
      str[newLen] := PathSeparator(os);
      newLen := newLen + 1;
      str[newLen] := '\0';
    }
  }

  /** Characters before the old length are kept, and at most one is added: the separator. */
  lemma WithSlashExtends(path: string, os: Os)
    ensures var r := WithSlash(path, os);
      r[..|path|] == path && (r == path || r == path + [PathSeparator(os)])
  {
  }

  /** An empty path, or one that ends in a separator, is left alone. */
  lemma WithSlashKeeps(path: string, os: Os)
    ensures WithSlash(path, os) == path <==> |path| == 0 || EndsWithSeparator(path, os)
  {
  }

  /** A second `APPEND_SLASH` changes nothing. */
  lemma WithSlashIdempotent(path: string, os: Os)
    ensures WithSlash(WithSlash(path, os), os) == WithSlash(path, os)
  {
  }

  /** A non-empty result always ends in a separator. */
  lemma WithSlashEndsWithSeparator(path: string, os: Os)
    requires |path| > 0
    ensures EndsWithSeparator(WithSlash(path, os), os)
  {
  }

  /** Memory holding a NUL-terminated string: some NUL lies within it. */
  predicate IsCString(mem: seq<char>)
  {
    '\0' in mem
  }

  /** `strlen`: the position of the first NUL. */
  function StrLen(mem: seq<char>): (n: nat)
    requires IsCString(mem)
    ensures n < |mem| && mem[n] == '\0'
    ensures forall i :: 0 <= i < n ==> mem[i] != '\0'
  {
    if mem[0] == '\0' then 0 else 1 + StrLen(mem[1..])
  }

  /**
   * `strnew`: NULL for NULL, otherwise a new buffer holding the characters
   * of the input up to and including its terminator. The copy is a value,
   * so the input is not modified.
   */
  function StrNewCopy(instr: Option<seq<char>>): (r: Option<seq<char>>)
    requires instr.Some? ==> IsCString(instr.value)
    ensures r.None? <==> instr.None?
    ensures r.Some? ==> IsCString(r.value) && StrLen(r.value) == StrLen(instr.value)
    ensures r.Some? ==> |r.value| == StrLen(instr.value) + 1
                        && r.value == instr.value[..|r.value|]
  {
    match instr
    case None => None
    case Some(mem) => Some(mem[..StrLen(mem) + 1])
  }
}
