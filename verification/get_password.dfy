/** The terminal password line editor and the bounded string copy used by
    the shell's password prompt. Keys arrive one octet at a time; the
    editor keeps the typed characters, echoes a star per stored character
    and a rub-out per erased one, and ends on a line end or Ctrl-C. */
module Password {
  import opened Bytes
  import opened Results

  const BACKSPACE: byte := 0x08
  const DEL: byte := 0x7F
  const LF: byte := 0x0A
  const CR: byte := 0x0D
  const CTRL_C: byte := 0x03
  /** First octet `_getch` delivers for an arrow or other extended key. */
  const EXTENDED_PREFIX: byte := 0xE0

  /** Both prompts read into an 80-octet buffer, one octet kept for the NUL. */
  const PROMPT_BUFFER: nat := 80
  const PROMPT_CAP: nat := PROMPT_BUFFER - 1

  /** What the editor echoes: a star per stored character, "\b \b" per erase. */
  const STAR: seq<byte> := [0x2A]
  const RUBOUT: seq<byte> := [0x08, 0x20, 0x08]

  /** `iscntrl` in the C locale. */
  predicate IsCntrl(b: byte) {
    b < 0x20 || b == DEL
  }

  predicate IsErase(b: byte) {
    b == BACKSPACE || b == DEL
  }

  predicate IsEnd(b: byte) {
    b == LF || b == CR || b == CTRL_C
  }

  predicate NoControl(s: seq<byte>) {
    forall i :: 0 <= i < |s| ==> !IsCntrl(s[i])
  }

  /** The characters kept so far and everything echoed so far. */
  datatype Editor = Editor(typed: seq<byte>, echo: seq<byte>)

  /** The editing rules applied to `keys` from state `e`, with room for
      `cap` characters, up to the first end key or the end of the keys
      (a failed read). */
  function Edit(keys: seq<byte>, cap: nat, e: Editor): (r: Editor)
    requires |e.typed| <= cap
    ensures |r.typed| <= cap
    ensures NoControl(e.typed) ==> NoControl(r.typed)
    decreases |keys|
  {
    if |keys| == 0 then e
    else
      var b := keys[0];
      if IsErase(b) && |e.typed| > 0 then
        Edit(keys[1..], cap, Editor(e.typed[..|e.typed| - 1], e.echo + RUBOUT))
      else if IsEnd(b) then e
      else if IsCntrl(b) || |e.typed| == cap then Edit(keys[1..], cap, e)
      else Edit(keys[1..], cap, Editor(e.typed + [b], e.echo + STAR))
  }

  /** The trailing-character loop: drops final characters while the
      implementation-defined test `dropTrailing` holds of them. */
  function TrimTrailing(s: seq<byte>, dropTrailing: byte -> bool): (r: seq<byte>)
    ensures |r| <= |s| && r == s[..|r|]
    ensures forall i :: |r| <= i < |s| ==> dropTrailing(s[i])
    ensures |r| > 0 ==> !dropTrailing(r[|r| - 1])
    decreases |s|
  {
    if |s| > 0 && dropTrailing(s[|s| - 1]) then TrimTrailing(s[..|s| - 1], dropTrailing) else s
  }

  /** The reading loop of `get_password`: edits the keys into `buffer` in
      place and echoes when `echo` is set. Returns the final position. */
  method EditKeys(keys: seq<byte>, length: nat, echo: bool, buffer: seq<byte>)
    returns (to: seq<byte>, pos: nat, echoed: seq<byte>)
    requires |buffer| == length + 1
    ensures |to| == |buffer| && pos <= length
    ensures to[..pos] == Edit(keys, length, Editor([], [])).typed
    ensures echoed == if echo then Edit(keys, length, Editor([], [])).echo else []
  {
    var final := Edit(keys, length, Editor([], []));
    to := buffer;
    echoed := [];
    ghost var log: seq<byte> := [];
    pos := 0;
    var i := 0;
    var done := false;
    while !done && i < |keys|
      invariant 0 <= i <= |keys| && pos <= length && |to| == |buffer|
      invariant echoed == if echo then log else []
      invariant !done ==> Edit(keys[i..], length, Editor(to[..pos], log)) == final
      invariant done ==> Editor(to[..pos], log) == final
      decreases |keys| - i, !done
    {
      var tmp := keys[i];
      assert keys[i..][0] == tmp && keys[i..][1..] == keys[i + 1..];
      i := i + 1;
      if IsErase(tmp) && pos != 0 {
        if echo {
          echoed := echoed + RUBOUT;
        }
        log := log + RUBOUT;
        assert to[..pos][..pos - 1] == to[..pos - 1];
        pos := pos - 1;
      } else if IsEnd(tmp) {
        done := true;
      } else if IsCntrl(tmp) || pos == length {
      } else {
        if echo {
          echoed := echoed + STAR;
        }
        log := log + STAR;
        assert to[pos := tmp][..pos + 1] == to[..pos] + [tmp];
        to := to[pos := tmp];
        pos := pos + 1;
      }
    }
  }

  /** `get_password`: edits the keys into `buffer` (which holds
      `length + 1` octets), drops trailing characters, NUL-terminates at the
      final position and echoes when `echo` is set. `dropTrailing` stands
      for the comparison `isspace(c) == ' '`, whose outcome depends on the
      C library. */
  method GetPassword(keys: seq<byte>, length: nat, echo: bool, dropTrailing: byte -> bool,
                     buffer: seq<byte>)
    returns (to: seq<byte>, echoed: seq<byte>)
    requires |buffer| == length + 1
    ensures |to| == |buffer|
    ensures CString(to) == Some(TrimTrailing(Edit(keys, length, Editor([], [])).typed, dropTrailing))
    ensures echoed == if echo then Edit(keys, length, Editor([], [])).echo else []
  {
    var pos;
    to, pos, echoed := EditKeys(keys, length, echo, buffer);
    ghost var typed := to[..pos];
    assert NoControl(typed);
    pos := TrimPosition(to, pos, dropTrailing);
    assert to[pos := 0][..pos] == to[..pos];
    to := to[pos := 0];
    assert 0 !in to[..pos] by {
      assert forall i :: 0 <= i < pos ==> to[i] == typed[i] && !IsCntrl(typed[i]);
    }
    CStringAt(to, pos);
  }

  /** The loop that steps the end position back over trailing characters:
      the characters it keeps are the trimmed ones. */
  method TrimPosition(to: seq<byte>, end: nat, dropTrailing: byte -> bool) returns (pos: nat)
    requires end <= |to|
    ensures pos <= end
    ensures to[..pos] == TrimTrailing(to[..end], dropTrailing)
  {
    pos := end;
    while pos != 0 && dropTrailing(to[pos - 1])
      invariant pos <= end
      invariant TrimTrailing(to[..pos], dropTrailing) == TrimTrailing(to[..end], dropTrailing)
    {
      assert to[..pos][..pos - 1] == to[..pos - 1];
      pos := pos - 1;
    }
    assert TrimTrailing(to[..pos], dropTrailing) == to[..pos];
  }

  /** A buffer with a NUL at `k` and none before denotes its first `k` octets. */
  lemma {:induction false} CStringAt(buf: seq<byte>, k: nat)
    requires k < |buf| && buf[k] == 0
    requires 0 !in buf[..k]
    ensures CString(buf) == Some(buf[..k])
    decreases k
  {
    if k > 0 {
      assert buf[1..][..k - 1] == buf[1..k];
      assert buf[..k][1..] == buf[1..k];
      assert buf[0] == buf[..k][0];
      CStringAt(buf[1..], k - 1);
      assert buf[..k] == [buf[0]] + buf[1..k];
    }
  }

  /** Typing a character and erasing it leaves the kept text as it was. */
  lemma TypeThenErase(keys: seq<byte>, cap: nat, e: Editor, b: byte, erase: byte)
    requires |e.typed| < cap
    requires !IsCntrl(b) && IsErase(erase)
    ensures Edit([b, erase] + keys, cap, e).typed == Edit(keys, cap, e).typed
  {
    var ks := [b, erase] + keys;
    assert ks[1..] == [erase] + keys;
    assert ([erase] + keys)[1..] == keys;
    assert (e.typed + [b])[..|e.typed|] == e.typed;
    EditTypedIgnoresEcho(keys, cap, e.typed, e.echo + STAR + RUBOUT, e.echo);
  }

  /** The kept text does not depend on what was echoed before. */
  lemma {:induction false} EditTypedIgnoresEcho(keys: seq<byte>, cap: nat, t: seq<byte>, e1: seq<byte>, e2: seq<byte>)
    requires |t| <= cap
    ensures Edit(keys, cap, Editor(t, e1)).typed == Edit(keys, cap, Editor(t, e2)).typed
    decreases |keys|
  {
    if |keys| > 0 {
      var b := keys[0];
      if IsErase(b) && |t| > 0 {
        EditTypedIgnoresEcho(keys[1..], cap, t[..|t| - 1], e1 + RUBOUT, e2 + RUBOUT);
      } else if IsEnd(b) {
      } else if IsCntrl(b) || |t| == cap {
        EditTypedIgnoresEcho(keys[1..], cap, t, e1, e2);
      } else {
        EditTypedIgnoresEcho(keys[1..], cap, t + [b], e1 + STAR, e2 + STAR);
      }
    }
  }

  /** An erase key on an empty line is dropped like any control character. */
  lemma EraseOnEmptyIsDropped(keys: seq<byte>, cap: nat, echo: seq<byte>, erase: byte)
    requires IsErase(erase)
    ensures Edit([erase] + keys, cap, Editor([], echo)) == Edit(keys, cap, Editor([], echo))
  {
    assert ([erase] + keys)[1..] == keys;
  }

  /** An end key finishes the line; nothing after it is read. */
  lemma EndKeyStops(keys: seq<byte>, cap: nat, e: Editor, b: byte)
    requires |e.typed| <= cap && IsEnd(b)
    ensures Edit([b] + keys, cap, e) == e
  {
  }

  /** On a full line, a character that is neither an erase nor an end key
      is dropped. */
  lemma FullLineDrops(keys: seq<byte>, cap: nat, e: Editor, b: byte)
    requires |e.typed| == cap && !IsErase(b) && !IsEnd(b)
    ensures Edit([b] + keys, cap, e) == Edit(keys, cap, e)
  {
    assert ([b] + keys)[1..] == keys;
  }

  /** Printable keys that fit are kept verbatim, each echoed as a star. */
  lemma {:induction false} EditPlainText(keys: seq<byte>, cap: nat, e: Editor)
    requires NoControl(keys)
    requires |e.typed| + |keys| <= cap
    ensures Edit(keys, cap, e).typed == e.typed + keys
    decreases |keys|
  {
    if |keys| > 0 {
      assert NoControl(keys[1..]);
      EditPlainText(keys[1..], cap, Editor(e.typed + [keys[0]], e.echo + STAR));
      assert e.typed + [keys[0]] + keys[1..] == e.typed + keys;
    }
  }

  /** The Windows prompt's editing loop over `_getch` results: the same
      rules with room for 79 characters, where an 0xE0 prefix makes the
      next octet the key. `None` when the keys run out before an end key,
      since `_getch` then waits and the prompt does not return. */
  function WindowsEdit(keys: seq<byte>, e: Editor): (r: Option<Editor>)
    requires |e.typed| <= PROMPT_CAP
    ensures r.Some? ==> |r.value.typed| <= PROMPT_CAP
    ensures r.Some? && NoControl(e.typed) ==> NoControl(r.value.typed)
    decreases |keys|
  {
    if |keys| == 0 || (keys[0] == EXTENDED_PREFIX && |keys| == 1) then None
    else
      var b := if keys[0] == EXTENDED_PREFIX then keys[1] else keys[0];
      var rest := if keys[0] == EXTENDED_PREFIX then keys[2..] else keys[1..];
      if IsErase(b) && |e.typed| > 0 then
        WindowsEdit(rest, Editor(e.typed[..|e.typed| - 1], e.echo + RUBOUT))
      else if IsEnd(b) then Some(e)
      else if IsCntrl(b) || |e.typed| == PROMPT_CAP then WindowsEdit(rest, e)
      else WindowsEdit(rest, Editor(e.typed + [b], e.echo + STAR))
  }

  /** The Windows `mysh_get_tty_password`: the edited line after the
      trailing-character loop, as `strdup` copies it. */
  function WindowsTtyPassword(keys: seq<byte>, dropTrailing: byte -> bool): (r: Option<seq<byte>>)
    ensures r.Some? ==> |r.value| <= PROMPT_CAP && NoControl(r.value)
  {
    var e := WindowsEdit(keys, Editor([], []));
    if e.None? then None else Some(TrimTrailing(e.value.typed, dropTrailing))
  }

  /** Without extended keys, the Windows loop edits exactly as the POSIX
      loop with a 79-character cap, once an end key arrives. */
  lemma {:induction false} WindowsAgreesWithPosix(keys: seq<byte>, e: Editor, j: nat)
    requires |e.typed| <= PROMPT_CAP
    requires forall i :: 0 <= i < |keys| ==> keys[i] != EXTENDED_PREFIX
    requires j < |keys| && IsEnd(keys[j])
    ensures WindowsEdit(keys, e) == Some(Edit(keys, PROMPT_CAP, e))
    decreases |keys|
  {
    var b := keys[0];
    if IsEnd(b) {
    } else {
      assert j > 0 && keys[1..][j - 1] == keys[j];
      if IsErase(b) && |e.typed| > 0 {
        WindowsAgreesWithPosix(keys[1..], Editor(e.typed[..|e.typed| - 1], e.echo + RUBOUT), j - 1);
      } else if IsCntrl(b) || |e.typed| == PROMPT_CAP {
        WindowsAgreesWithPosix(keys[1..], e, j - 1);
      } else {
        WindowsAgreesWithPosix(keys[1..], Editor(e.typed + [b], e.echo + STAR), j - 1);
      }
    }
  }

  /** An 0xE0 prefix is consumed and the octet after it is taken as the
      key, with the same effect as pressing that key alone. */
  lemma PrefixSecondRead(keys: seq<byte>, e: Editor, b: byte)
    requires |e.typed| <= PROMPT_CAP
    requires b != EXTENDED_PREFIX
    ensures WindowsEdit([EXTENDED_PREFIX, b] + keys, e) == WindowsEdit([b] + keys, e)
  {
    assert ([EXTENDED_PREFIX, b] + keys)[2..] == keys;
    assert ([b] + keys)[1..] == keys;
  }

  /** Without extended keys and with an end key present, the Windows prompt
      returns what the POSIX prompt stores with a 79-character cap. */
  lemma WindowsTtyAgreesWithPosix(keys: seq<byte>, dropTrailing: byte -> bool, j: nat)
    requires forall i :: 0 <= i < |keys| ==> keys[i] != EXTENDED_PREFIX
    requires j < |keys| && IsEnd(keys[j])
    ensures WindowsTtyPassword(keys, dropTrailing)
         == Some(TrimTrailing(Edit(keys, PROMPT_CAP, Editor([], [])).typed, dropTrailing))
  {
    WindowsAgreesWithPosix(keys, Editor([], []), j);
  }

  /** Without an end key the Windows prompt never returns. */
  lemma {:induction false} WindowsWaitsForEnd(keys: seq<byte>, e: Editor)
    requires |e.typed| <= PROMPT_CAP
    requires forall i :: 0 <= i < |keys| ==> !IsEnd(keys[i])
    ensures WindowsEdit(keys, e) == None
    decreases |keys|
  {
    if |keys| == 0 || (keys[0] == EXTENDED_PREFIX && |keys| == 1) {
    } else {
      var b := if keys[0] == EXTENDED_PREFIX then keys[1] else keys[0];
      var rest := if keys[0] == EXTENDED_PREFIX then keys[2..] else keys[1..];
      assert forall i :: 0 <= i < |rest| ==> !IsEnd(rest[i]) by {
        forall i | 0 <= i < |rest|
          ensures !IsEnd(rest[i])
        {
          if keys[0] == EXTENDED_PREFIX {
            assert rest[i] == keys[i + 2];
          } else {
            assert rest[i] == keys[i + 1];
          }
        }
      }
      assert !IsEnd(b) by {
        if keys[0] == EXTENDED_PREFIX {
          assert b == keys[1];
        } else {
          assert b == keys[0];
        }
      }
      if IsErase(b) && |e.typed| > 0 {
        WindowsWaitsForEnd(rest, Editor(e.typed[..|e.typed| - 1], e.echo + RUBOUT));
      } else if IsCntrl(b) || |e.typed| == PROMPT_CAP {
        WindowsWaitsForEnd(rest, e);
      } else {
        WindowsWaitsForEnd(rest, Editor(e.typed + [b], e.echo + STAR));
      }
    }
  }

  /** The result of `my_stpnmov`: the destination buffer after the copy and
      the offset of the returned pointer from `dst`. */
  datatype Copied = Copied(out: seq<byte>, end: nat)

  /** Offset of the first NUL among the first `n` octets of `src`, or `n`. */
  function CopyEnd(src: seq<byte>, n: nat): (k: nat)
    requires n <= |src| || 0 in src
    ensures k <= n && k <= |src|
    ensures forall i :: 0 <= i < k ==> src[i] != 0
    ensures k < n ==> src[k] == 0
    decreases n
  {
    if n == 0 then 0
    else if src[0] == 0 then 0
    else 1 + CopyEnd(src[1..], n - 1)
  }

  /** The copy `my_stpnmov(dst, src, n)` performs: the octets of `src` up to
      and including its first NUL, but never more than `n`. */
  function StpnmovResult(dst: seq<byte>, src: seq<byte>, n: nat): (c: Copied)
    requires n <= |dst|
    requires n <= |src| || 0 in src
    ensures && |c.out| == |dst| && c.end <= n && c.end <= |src|
            && c.out[..c.end] == src[..c.end] && 0 !in src[..c.end]
            && (c.end < n ==> src[c.end] == 0 && c.out[c.end] == 0 && c.out[c.end + 1..] == dst[c.end + 1..])
            && (c.end == n ==> c.out[n..] == dst[n..])
  {
    var k := CopyEnd(src, n);
    if k < n then
      var out := src[..k + 1] + dst[k + 1..];
      assert out[..k] == src[..k];
      Copied(out, k)
    else
      var out := src[..n] + dst[n..];
      assert out[..n] == src[..n];
      Copied(out, n)
  }

  /** `my_stpnmov` as the loop the C code runs. */
  method Stpnmov(dst: seq<byte>, src: seq<byte>, n: nat) returns (out: seq<byte>, end: nat)
    requires n <= |dst|
    requires n <= |src| || 0 in src
    ensures Copied(out, end) == StpnmovResult(dst, src, n)
  {
    out := dst;
    var i := 0;
    while i < n
      invariant i <= n && i <= |src| && |out| == |dst|
      invariant forall j :: 0 <= j < i ==> src[j] != 0
      invariant out == src[..i] + dst[i..]
    {
      ReadableAt(src, n, i);
      ghost var prev := out;
      out := out[i := src[i]];
      CopyStep(prev, src, dst, i);
      if src[i] == 0 {
        CopyEndAt(src, n, i);
        return out, i;
      }
      i := i + 1;
    }
    CopyEndAt(src, n, n);
    end := n;
  }

  /** The loop never reads past the end of `src`: a NUL stops it first. */
  lemma ReadableAt(src: seq<byte>, n: nat, i: nat)
    requires n <= |src| || 0 in src
    requires i < n && i <= |src| && forall j :: 0 <= j < i ==> src[j] != 0
    ensures i < |src|
  {
    if n > |src| {
      var k :| 0 <= k < |src| && src[k] == 0;
      assert i <= k;
    }
  }

  lemma CopyStep(out: seq<byte>, src: seq<byte>, dst: seq<byte>, i: nat)
    requires i < |src| && i < |dst| && |out| == |dst|
    requires out == src[..i] + dst[i..]
    ensures out[i := src[i]] == src[..i + 1] + dst[i + 1..]
  {
  }

  /** The first NUL (or `n`) is where the copy ends. */
  lemma {:induction false} CopyEndAt(src: seq<byte>, n: nat, i: nat)
    requires n <= |src| || 0 in src
    requires i <= n && i <= |src|
    requires forall j :: 0 <= j < i ==> src[j] != 0
    requires i < n ==> src[i] == 0
    ensures CopyEnd(src, n) == i
    decreases i
  {
    if i > 0 {
      assert src[0] != 0;
      assert n <= |src| || 0 in src[1..] by {
        if n > |src| {
          var k :| 0 <= k < |src| && src[k] == 0;
          assert k > 0 && src[1..][k - 1] == 0;
        }
      }
      assert forall j :: 0 <= j < i - 1 ==> src[1..][j] == src[j + 1];
      CopyEndAt(src[1..], n - 1, i - 1);
    }
  }

  /** The password buffer after the `getpass` branch copies with
      `my_stpnmov(buff, passbuff, sizeof(buff) - 1)` and nothing else. */
  function GetpassBufferAsWritten(buff: seq<byte>, pass: seq<byte>): (r: seq<byte>)
    requires |buff| == PROMPT_BUFFER && 0 in pass
    ensures |r| == PROMPT_BUFFER
    ensures r[PROMPT_CAP] == buff[PROMPT_CAP]
  {
    StpnmovResult(buff, pass, PROMPT_CAP).out
  }

  /** A 79-character password copied over a buffer without NUL leaves a
      buffer without NUL, so `strdup(buff)` reads past its end. */
  lemma GetpassBufferAsWrittenUnterminated()
    ensures var pass := seq(PROMPT_CAP, _ => 0x61 as byte) + [0];
            CString(GetpassBufferAsWritten(seq(PROMPT_BUFFER, _ => 0x41 as byte), pass)) == None
  {
    var pass := seq(PROMPT_CAP, _ => 0x61 as byte) + [0];
    var buff := seq(PROMPT_BUFFER, _ => 0x41 as byte);
    assert pass[PROMPT_CAP] == 0;
    var r := GetpassBufferAsWritten(buff, pass);
    assert forall i :: 0 <= i < PROMPT_CAP ==> r[i] == pass[i] by {
      assert r[..PROMPT_CAP] == pass[..PROMPT_CAP];
    }
    assert forall i :: 0 <= i < |r| ==> r[i] != 0;
  }

  /** The copy with the terminating NUL the last octet is kept for: the
      password is the `getpass` string cut to 79 characters. */
  function GetpassBuffer(buff: seq<byte>, pass: seq<byte>): (r: seq<byte>)
    requires |buff| == PROMPT_BUFFER && 0 in pass
    ensures |r| == PROMPT_BUFFER
    ensures CString(pass).Some? && CString(r).Some?
    ensures var p := CString(pass).value;
            CString(r).value == if |p| <= PROMPT_CAP then p else p[..PROMPT_CAP]
  {
    var c := StpnmovResult(buff, pass, PROMPT_CAP);
    var r := c.out[PROMPT_CAP := 0];
    assert r[..c.end] == c.out[..c.end] == pass[..c.end];
    assert r[c.end] == 0;
    CStringAt(r, c.end);
    if c.end < PROMPT_CAP then
      CStringAt(pass, c.end);
      r
    else
      CStringPrefix(pass, c.end);
      r
  }

  /** The first `k` octets of a string hold no NUL, so its C string is at
      least that long. */
  lemma {:induction false} CStringPrefix(buf: seq<byte>, k: nat)
    requires k <= |buf| && 0 !in buf[..k] && 0 in buf
    ensures CString(buf).Some? && |CString(buf).value| >= k
    decreases k
  {
    if k > 0 {
      assert buf[0] == buf[..k][0];
      assert buf[1..][..k - 1] == buf[1..k] == buf[..k][1..];
      assert 0 in buf[1..] by {
        var z :| 0 <= z < |buf| && buf[z] == 0;
        assert z > 0 && buf[1..][z - 1] == 0;
      }
      CStringPrefix(buf[1..], k - 1);
    }
  }
}
