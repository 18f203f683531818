/** The soft-keyboard part of raymob's device-feature bridge.

    The managed feature provider is reached through a foreign-call bridge;
    here it is a `Provider` object whose fields are what the bridge reads
    (whether the provider exists, the last key code, the last key's Unicode
    value) and two ghost counters for what the bridge does (clears of the
    key state, thread attachments held).  The one real decision of the
    bridge, turning a key event into a single C `char`, is the function
    `KeyChar`; the text-field helper is the method `SoftKeyboardEditText`,
    specified by the function `Edited` on the buffer's bytes.
 */
module Features {
  import opened CString

  /** A Java `int`, as the bridge's `()I` getters return it. */
  newtype int32 = x: int | -0x8000_0000 <= x < 0x8000_0000

  /** A C `unsigned int`, the type of the buffer capacity. */
  newtype uint32 = x: int | 0 <= x < 0x1_0000_0000

  /** Android key codes the translation singles out. */
  const KeycodeEnter: int32 := 66
  const KeycodeDel: int32 := 67

  /** The `char` values the translation produces besides plain bytes. */
  const LF: byte := 10        // '\n'
  const BS: byte := 8         // '\b'
  const Question: byte := 63  // '?'

  // ---------------------------------------------------------------------
  // Key-to-character translation
  // ---------------------------------------------------------------------

  /** The character `GetLastSoftKeyChar` yields for a provider that is
      `present` and holds the key event (`keyCode`, `unicode`).
      A Unicode value above 0xFF is replaced by '?'; any other value is
      cast to `char`, which keeps its low eight bits.  The result is NUL
      exactly when there is no provider, no key event, or an ordinary key
      whose Unicode value is not above 0xFF and has a zero low byte (a
      Unicode value of 0 among them). */
  function KeyChar(present: bool, keyCode: int32, unicode: int32): (c: byte)
    ensures c == NUL <==>
      !present || keyCode == 0 ||
      (keyCode !in {KeycodeEnter, KeycodeDel} && unicode <= 0xFF && unicode as int % 256 == 0)
  {
    if !present || keyCode == 0 then NUL
    else if keyCode == KeycodeEnter then LF
    else if keyCode == KeycodeDel then BS
    else if unicode > 0xFF then Question
    else (unicode as int % 256) as byte
  }

  /** No provider, or no key event, gives NUL. */
  lemma KeyCharNoEvent(present: bool, keyCode: int32, unicode: int32)
    requires !present || keyCode == 0
    ensures KeyChar(present, keyCode, unicode) == NUL
  {
  }

  /** ENTER and DEL are translated by key code alone. */
  lemma KeyCharEnterDel(unicode: int32)
    ensures KeyChar(true, KeycodeEnter, unicode) == LF
    ensures KeyChar(true, KeycodeDel, unicode) == BS
  {
  }

  /** Any other key: '?' above 0xFF, otherwise the low byte of the value. */
  lemma KeyCharOther(keyCode: int32, unicode: int32)
    requires keyCode !in {0, KeycodeEnter, KeycodeDel}
    ensures unicode > 0xFF ==> KeyChar(true, keyCode, unicode) == Question
    ensures unicode <= 0xFF ==> KeyChar(true, keyCode, unicode) as int == unicode as int % 256
  {
  }

  /** Every Latin-1 byte passes through unchanged: feeding the byte's value
      as the Unicode value of an ordinary key gives the byte back. */
  lemma KeyCharLatin1RoundTrip(keyCode: int32, b: byte)
    requires keyCode !in {0, KeycodeEnter, KeycodeDel}
    ensures KeyChar(true, keyCode, b as int as int32) == b
  {
  }

  // ---------------------------------------------------------------------
  // Text-buffer editing, on the buffer's bytes
  // ---------------------------------------------------------------------

  /** What `SoftKeyboardEditText` needs of the buffer: a terminator for
      `strlen` to find, and room for a character and a new terminator
      whenever the string is shorter than the capacity `size`. */
  predicate Editable(s: seq<byte>, size: nat) {
    Terminated(s) && (StrLen(s) < size ==> StrLen(s) + 1 < |s|)
  }

  /** The buffer a caller sets up: `size + 1` cells or more, holding a
      string of at most `size` characters. */
  predicate WellFormed(s: seq<byte>, size: nat) {
    |s| > size && Terminated(s) && StrLen(s) <= size
  }

  /** The buffer after `SoftKeyboardEditText` has handled character `c`. */
  function Edited(s: seq<byte>, size: nat, c: byte): (r: seq<byte>)
    requires Editable(s, size)
    ensures |r| == |s| && Terminated(r)
  {
    var len := StrLen(s);
    if c == NUL then s
    else if c == BS && len > 0 then
      var r := s[len - 1 := NUL];
      assert r[len - 1] == NUL;
      r
    else if c != BS && len < size then
      var r := s[len := c][len + 1 := NUL];
      assert r[len + 1] == NUL;
      r
    else s
  }

  lemma WellFormedIsEditable(s: seq<byte>, size: nat)
    requires WellFormed(s, size)
    ensures Editable(s, size)
  {
  }

  /** NUL changes nothing. */
  lemma EditedNul(s: seq<byte>, size: nat)
    requires Editable(s, size)
    ensures Edited(s, size, NUL) == s
  {
  }

  /** Backspace on a nonempty string: the length drops by one, the last
      character is gone, and only the cell that held it is written. */
  lemma EditedBackspace(s: seq<byte>, size: nat)
    requires Editable(s, size) && StrLen(s) > 0
    ensures var r := Edited(s, size, BS);
      StrLen(r) == StrLen(s) - 1 &&
      Text(r) == Text(s)[..StrLen(s) - 1] &&
      r == s[StrLen(s) - 1 := NUL]
  {
    var len := StrLen(s);
    var r := s[len - 1 := NUL];
    assert r == Edited(s, size, BS);
    assert r[..len - 1] == s[..len - 1];
    StrLenIsFirstNul(r, len - 1);
  }

  /** Backspace on an empty string leaves the buffer as it is. */
  lemma EditedBackspaceEmpty(s: seq<byte>, size: nat)
    requires Editable(s, size) && StrLen(s) == 0
    ensures Edited(s, size, BS) == s
  {
  }

  /** Any other character, while the string is shorter than `size`, is
      placed at the old length; the length grows by one and the terminator
      lands at an index no greater than `size`. */
  lemma EditedAppend(s: seq<byte>, size: nat, c: byte)
    requires Editable(s, size) && StrLen(s) < size
    requires c != NUL && c != BS
    ensures var r := Edited(s, size, c);
      r[StrLen(s)] == c &&
      StrLen(r) == StrLen(s) + 1 && StrLen(r) <= size &&
      Text(r) == Text(s) + [c]
  {
    var len := StrLen(s);
    var r := s[len := c][len + 1 := NUL];
    assert r == Edited(s, size, c);
    assert r[..len] == s[..len];
    StrLenIsFirstNul(r, len + 1);
    assert r[..len + 1] == r[..len] + [c];
  }

  /** An edit writes at most the cells at the old length and just before
      and after it: every other cell keeps its byte. */
  lemma EditedFrame(s: seq<byte>, size: nat, c: byte, i: nat)
    requires Editable(s, size) && i < |s|
    requires i + 1 != StrLen(s) && i != StrLen(s) && i != StrLen(s) + 1
    ensures Edited(s, size, c)[i] == s[i]
  {
  }

  /** A full buffer drops any character other than backspace. */
  lemma EditedFull(s: seq<byte>, size: nat, c: byte)
    requires Editable(s, size) && StrLen(s) >= size
    requires c != BS
    ensures Edited(s, size, c) == s
  {
  }

  /** The string after an edit, stated on strings alone. */
  lemma EditedText(s: seq<byte>, size: nat, c: byte)
    requires Editable(s, size)
    ensures Text(Edited(s, size, c)) ==
      if c == NUL then Text(s)
      else if c == BS then (if Text(s) == [] then [] else Text(s)[..|Text(s)| - 1])
      else if |Text(s)| < size then Text(s) + [c]
      else Text(s)
  {
    if c == BS && StrLen(s) > 0 {
      EditedBackspace(s, size);
    } else if c != NUL && c != BS && StrLen(s) < size {
      EditedAppend(s, size, c);
    }
  }

  /** A well-formed buffer stays well-formed, and no cell above `size` is
      ever written: a caller that keeps a `size + 1` buffer never overruns
      it however many keys are handled. */
  lemma EditedKeepsWellFormed(s: seq<byte>, size: nat, c: byte)
    requires WellFormed(s, size)
    ensures Editable(s, size)
    ensures WellFormed(Edited(s, size, c), size)
    ensures forall i :: size < i < |s| ==> Edited(s, size, c)[i] == s[i]
  {
    if c == BS && StrLen(s) > 0 {
      EditedBackspace(s, size);
    } else if c != NUL && c != BS && StrLen(s) < size {
      EditedAppend(s, size, c);
    }
  }

  /** Typing a character and then backspace gives back the same string. */
  lemma TypeThenErase(s: seq<byte>, size: nat, c: byte)
    requires WellFormed(s, size) && StrLen(s) < size
    requires c != NUL && c != BS
    ensures Editable(Edited(s, size, c), size)
    ensures Text(Edited(Edited(s, size, c), size, BS)) == Text(s)
  {
    var r := Edited(s, size, c);
    EditedKeepsWellFormed(s, size, c);
    EditedAppend(s, size, c);
    EditedText(r, size, BS);
    assert Text(r)[..|Text(r)| - 1] == Text(s);
  }

  /** The four edits of a short buffer: "ab" in a buffer of capacity 5
      stays "ab" on NUL, becomes "abc" on 'c' and "a" on backspace, and a
      full "abcde" drops 'f'. */
  lemma EditedExamples()
    ensures var ab: seq<byte> := [97, 98, 0, 0, 0, 0];
      Editable(ab, 5) &&
      Edited(ab, 5, NUL) == ab &&
      Text(Edited(ab, 5, 99)) == [97, 98, 99] &&
      Text(Edited(ab, 5, BS)) == [97]
    ensures var full: seq<byte> := [97, 98, 99, 100, 101, 0];
      Editable(full, 5) && Edited(full, 5, 102) == full
  {
    var ab: seq<byte> := [97, 98, 0, 0, 0, 0];
    StrLenIsFirstNul(ab, 2);
    EditedText(ab, 5, 99);
    EditedText(ab, 5, BS);
    var full: seq<byte> := [97, 98, 99, 100, 101, 0];
    StrLenIsFirstNul(full, 5);
  }

  // ---------------------------------------------------------------------
  // The feature provider and the bridge calls
  // ---------------------------------------------------------------------

  /** The managed feature provider, as far as the soft-key bridge sees it. */
  class Provider {
    /** Whether the provider instance exists (is not null). */
    var present: bool
    /** What the provider's last-key-code getter returns. */
    var lastKeyCode: int32
    /** What the provider's last-key-Unicode getter returns. */
    var lastKeyUnicode: int32
    /** How many times the key state has been cleared. */
    ghost var clears: nat
    /** How many thread attachments to the managed runtime are held. */
    ghost var attachDepth: nat

    constructor (present: bool, keyCode: int32, unicode: int32)
      ensures this.present == present
      ensures lastKeyCode == keyCode && lastKeyUnicode == unicode
      ensures clears == 0 && attachDepth == 0
    {
      this.present := present;
      lastKeyCode, lastKeyUnicode := keyCode, unicode;
      clears, attachDepth := 0, 0;
    }

    /** Attach the current thread to the managed runtime. */
    ghost method Attach()
      modifies this`attachDepth
      ensures attachDepth == old(attachDepth) + 1
    {
      attachDepth := attachDepth + 1;
    }

    /** Detach the current thread again. */
    ghost method Detach()
      requires attachDepth > 0
      modifies this`attachDepth
      ensures attachDepth == old(attachDepth) - 1
    {
      attachDepth := attachDepth - 1;
    }

    /** The last key code, or 0 with no provider. */
    method GetLastSoftKeyCode() returns (code: int32)
      modifies this`attachDepth
      ensures attachDepth == old(attachDepth)
      ensures code == if present then lastKeyCode else 0
    {
      code := 0;
      if present {
        Attach();
        code := lastKeyCode;
        Detach();
      }
    }

    /** The last key's Unicode value, or 0 with no provider. */
    method GetLastSoftKeyUnicode() returns (unicode: int32)
      modifies this`attachDepth
      ensures attachDepth == old(attachDepth)
      ensures unicode == if present then lastKeyUnicode else 0
    {
      unicode := 0;
      if present {
        Attach();
        unicode := lastKeyUnicode;
        Detach();
      }
    }

    /** The last key as one C `char`.  Only reads the key state: the frame
        allows nothing but the attachment count to change, and every path
        detaches as often as it attached. */
    method GetLastSoftKeyChar() returns (c: byte)
      modifies this`attachDepth
      ensures attachDepth == old(attachDepth)
      ensures clears == old(clears)
      ensures lastKeyCode == old(lastKeyCode) && lastKeyUnicode == old(lastKeyUnicode)
      ensures c == KeyChar(present, lastKeyCode, lastKeyUnicode)
    {
      if !present {
        return NUL;
      }
      c := NUL;
      Attach();
      var keyCode := lastKeyCode;
      if keyCode != 0 {
        if keyCode == KeycodeEnter {
          c := LF;
        } else if keyCode == KeycodeDel {
          c := BS;
        } else {
          var u := lastKeyUnicode;
          if u > 0xFF {
            c := Question;
          } else {
            c := (u as int % 256) as byte;
          }
        }
      }
      Detach();
    }

    /** Clear the last key event.  A no-op with no provider; otherwise one
        clear happens.  What the provider then reports as the last key is
        up to the provider and is not specified here. */
    method ClearLastSoftKey()
      modifies this`clears, this`attachDepth, this`lastKeyCode, this`lastKeyUnicode
      ensures attachDepth == old(attachDepth)
      ensures clears == old(clears) + (if present then 1 else 0)
      ensures !present ==> lastKeyCode == old(lastKeyCode) && lastKeyUnicode == old(lastKeyUnicode)
    {
      if present {
        Attach();
        clears := clears + 1;
        Detach();
      }
    }
  }

  /** Reading the last key twice with no clear in between gives the same
      character both times. */
  method PollTwice(p: Provider) returns (first: byte, second: byte)
    modifies p`attachDepth
    ensures first == second
  {
    first := p.GetLastSoftKeyChar();
    second := p.GetLastSoftKeyChar();
  }

  /** Apply the last soft key to the caller's text buffer of capacity `size`
      and consume the key, unless there is none. */
  method SoftKeyboardEditText(p: Provider, text: array<byte>, size: uint32)
    requires Editable(text[..], size as nat)
    modifies p, text
    ensures p.present == old(p.present) && p.attachDepth == old(p.attachDepth)
    ensures var c := KeyChar(old(p.present), old(p.lastKeyCode), old(p.lastKeyUnicode));
      text[..] == Edited(old(text[..]), size as nat, c) &&
      p.clears == old(p.clears) + (if c == NUL then 0 else 1) &&
      (c == NUL ==> p.lastKeyCode == old(p.lastKeyCode) && p.lastKeyUnicode == old(p.lastKeyUnicode))
  {
    var c := p.GetLastSoftKeyChar();
    if c == NUL {
      return;
    }
    var len := StrLen(text[..]);
    if c == BS && len > 0 {
      text[len - 1] := NUL;
    } else if c != BS && len < size as nat {
      text[len] := c;
      len := len + 1;
      text[len] := NUL;
    }
    p.ClearLastSoftKey();
  }
}
