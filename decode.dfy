/** The command decoder `decodeHTML` (main.c:267-306): a left-to-right scan
    that turns '+' into a space and a '%' followed by at least two more
    characters into one character, '/' for "%2F", '~' for "%7E" and '%' for
    every other pair (the pair itself is dropped). A '%' in one of the last
    two positions is copied as it is. No terminator is written: the caller
    zeroes the output buffer beforehand. */
module Decoding {
  import opened CStrings

  /** The character a consumed escape `%ab` yields. */
  function EscapeChar(a: char, b: char): char
  {
    if a == '2' && b == 'F' then '/'
    else if a == '7' && b == 'E' then '~'
    else '%'
  }

  /** The character any other input character yields. */
  function PlainChar(c: char): char
  {
    if c == '+' then ' ' else c
  }

  /** The text `decodeHTML` writes for `cmd`. Every output character consumes
      one input character or, for an escape, three. */
  function Decoded(cmd: seq<char>): (out: seq<char>)
    ensures |out| <= |cmd| <= 3 * |out|
    decreases |cmd|
  {
    if cmd == [] then []
    else if cmd[0] == '%' && |cmd| > 2 then [EscapeChar(cmd[1], cmd[2])] + Decoded(cmd[3..])
    else [PlainChar(cmd[0])] + Decoded(cmd[1..])
  }

  /** The output is as long as the input exactly when no escape is consumed,
      that is, when no '%' stands before the last two positions. */
  lemma {:induction false} DecodedKeepsLengthIff(cmd: seq<char>)
    ensures |Decoded(cmd)| == |cmd| <==> forall i :: 0 <= i < |cmd| - 2 ==> cmd[i] != '%'
  {
    if cmd != [] {
      var rest := cmd[1..];
      DecodedKeepsLengthIff(rest);
      if cmd[0] == '%' && |cmd| > 2 {
        assert |Decoded(cmd)| < |cmd|;
      } else {
        assert forall i :: 1 <= i < |cmd| - 2 ==> cmd[i] == rest[i - 1];
      }
    }
  }

  /** A decoded command never holds a '+': every '+' became a space. */
  lemma {:induction false} DecodedHasNoPlus(cmd: seq<char>)
    ensures '+' !in Decoded(cmd)
    decreases |cmd|
  {
    if cmd != [] {
      if cmd[0] == '%' && |cmd| > 2 {
        DecodedHasNoPlus(cmd[3..]);
      } else {
        DecodedHasNoPlus(cmd[1..]);
      }
    }
  }

  /** Decoding a C string yields a C string: no NUL is ever produced. */
  lemma {:induction false} DecodedHasNoNul(cmd: seq<char>)
    requires NUL !in cmd
    ensures NUL !in Decoded(cmd)
    decreases |cmd|
  {
    if cmd != [] {
      if cmd[0] == '%' && |cmd| > 2 {
        assert NUL !in cmd[3..] by { assert forall i :: 0 <= i < |cmd| - 3 ==> cmd[3..][i] == cmd[i + 3]; }
        DecodedHasNoNul(cmd[3..]);
      } else {
        assert NUL !in cmd[1..] by { assert forall i :: 0 <= i < |cmd| - 1 ==> cmd[1..][i] == cmd[i + 1]; }
        DecodedHasNoNul(cmd[1..]);
      }
    }
  }

  /** An encoder the decoder inverts: a space as '+', '/' as "%2F", '~' as
      "%7E" and '%' as "%25" (an unsupported pair, which decodes to '%'). */
  function EncodeChar(c: char): seq<char>
  {
    if c == ' ' then "+"
    else if c == '/' then "%2F"
    else if c == '~' then "%7E"
    else if c == '%' then "%25"
    else [c]
  }

  function Encode(s: seq<char>): seq<char>
  {
    if s == [] then [] else EncodeChar(s[0]) + Encode(s[1..])
  }

  /** Every text without a '+' is what the decoder makes of its encoding; with
      DecodedHasNoPlus this makes the '+'-free texts exactly the decoder's outputs. */
  lemma {:induction false} DecodeEncode(s: seq<char>)
    requires '+' !in s
    ensures Decoded(Encode(s)) == s
  {
    if s != [] {
      var e := EncodeChar(s[0]);
      var rest := Encode(s[1..]);
      DecodeEncode(s[1..]);
      assert Encode(s) == e + rest;
      if |e| == 3 {
        assert (e + rest)[3..] == rest;
      } else {
        assert (e + rest)[1..] == rest;
      }
    }
  }

  /** One step of the decoder at index i: the character it emits and how
      far it moves. */
  lemma DecodedAt(cmd: seq<char>, i: nat)
    requires i < |cmd|
    ensures cmd[i] == '%' && i + 2 < |cmd| ==>
              Decoded(cmd[i..]) == [EscapeChar(cmd[i + 1], cmd[i + 2])] + Decoded(cmd[i + 3..])
    ensures !(cmd[i] == '%' && i + 2 < |cmd|) ==>
              Decoded(cmd[i..]) == [PlainChar(cmd[i])] + Decoded(cmd[i + 1..])
  {
    assert cmd[i..][1..] == cmd[i + 1..];
    if i + 2 < |cmd| {
      assert cmd[i..][3..] == cmd[i + 3..];
    }
  }

  /** `decodeHTML(cmd, output)`. The C code writes `output[ip]` with no bound;
      a write past the end of `output` is undefined behaviour, so the model
      stops there and reports `overrun`. */
  method DecodeHTML(cmd: seq<char>, output: array<char>) returns (overrun: bool)
    modifies output
    ensures overrun <==> |Decoded(cmd)| > output.Length
    ensures !overrun ==> output[..] == Decoded(cmd) + old(output[|Decoded(cmd)|..])
    ensures overrun ==> output[..] == Decoded(cmd)[..output.Length]
  {
    var i, ip := 0, 0;
    while i < |cmd|
      invariant 0 <= i <= |cmd| && ip <= output.Length
      invariant Decoded(cmd) == output[..ip] + Decoded(cmd[i..])
      invariant forall k :: ip <= k < output.Length ==> output[k] == old(output[k])
    {
      DecodedAt(cmd, i);
      ghost var rest := Decoded(cmd[i..]);
      var c := cmd[i];
      if cmd[i] == '+' {
        c := ' ';
      }
      if i + 2 < |cmd| && cmd[i] == '%' {
        if cmd[i + 1] == '2' {
          if cmd[i + 2] == 'F' {
            c := '/';
          }
        } else if cmd[i + 1] == '7' {
          if cmd[i + 2] == 'E' {
            c := '~';
          }
        }
        i := i + 2;
      }
      if ip == output.Length {
        assert output[..] == output[..ip];
        return true;
      }
      ghost var done := output[..ip];
      output[ip] := c;
      assert output[..ip + 1] == done + [c];
      ip := ip + 1;
      i := i + 1;
      assert rest == [c] + Decoded(cmd[i..]);
      assert Decoded(cmd) == done + rest;
      Regroup(done, [c], Decoded(cmd[i..]));
    }
    assert output[..] == output[..ip] + old(output[ip..]);
    return false;
  }
}
