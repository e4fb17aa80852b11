/**
 * The string and key helpers of ShellBat/Utilities/ShellBatExtensions.cs:
 * hexadecimal nibbles, the escaping of '%' and '#' in file paths handed to
 * the browser, the longest common prefix, the nullifying dictionary lookup
 * and the virtual-key classifiers.
 */
module Extensions {
  import opened Common

  // ------------------------------------------------------ nibbles

  /**
   * `value & 0xF` on a two's-complement `int`. Dafny's `%` is Euclidean, so
   * for a positive divisor it keeps the low four bits of negative values too
   * (-1 gives 15).
   */
  function LowNibble(value: int): (r: int)
    ensures 0 <= r < 16
  {
    value % 16
  }

  /** `NibbleToCharUpper` */
  function NibbleToCharUpper(value: int): (r: char)
    ensures LowNibble(value) < 10 ==> '0' <= r <= '9'
    ensures LowNibble(value) >= 10 ==> 'A' <= r <= 'F'
  {
    var v := LowNibble(value) + '0' as int;
    if v > '9' as int then (v + ('A' as int - ('9' as int + 1))) as char else v as char
  }

  /** `NibbleToCharLower` */
  function NibbleToCharLower(value: int): (r: char)
    ensures LowNibble(value) < 10 ==> '0' <= r <= '9'
    ensures LowNibble(value) >= 10 ==> 'a' <= r <= 'f'
  {
    var v := LowNibble(value) + '0' as int;
    if v > '9' as int then (v + ('a' as int - ('9' as int + 1))) as char else v as char
  }

  /**
   * `NibbleToChar(value, upper)`: a hexadecimal digit worth the low nibble,
   * whose letters, if any, are in the case `upper` asks for.
   */
  function NibbleToChar(value: int, upper: bool): (r: char)
    ensures HexValue(r) == Some(LowNibble(value))
    ensures upper ==> !('a' <= r <= 'z')
    ensures !upper ==> !('A' <= r <= 'Z')
    ensures Fold(r) == Fold(NibbleToCharLower(value))
  {
    if upper then NibbleToCharUpper(value) else NibbleToCharLower(value)
  }

  /** The value of a hexadecimal digit of either case. */
  function HexValue(c: char): Option<int> {
    if '0' <= c <= '9' then Some(c as int - '0' as int)
    else if 'A' <= c <= 'F' then Some(c as int - 'A' as int + 10)
    else if 'a' <= c <= 'f' then Some(c as int - 'a' as int + 10)
    else None
  }

  /** Both digit cases read back as the low nibble, and they differ only in case. */
  lemma NibbleRoundTrip(value: int)
    ensures HexValue(NibbleToCharUpper(value)) == Some(LowNibble(value))
    ensures HexValue(NibbleToCharLower(value)) == Some(LowNibble(value))
    ensures Fold(NibbleToCharLower(value)) == NibbleToCharUpper(value)
  {
  }

  /** Only the low four bits matter. */
  lemma NibbleIgnoresHighBits(value: int, k: int)
    ensures NibbleToChar(value + 16 * k, true) == NibbleToChar(value, true)
    ensures NibbleToChar(value + 16 * k, false) == NibbleToChar(value, false)
  {
    assert LowNibble(value + 16 * k) == LowNibble(value);
  }

  // ------------------------------------------------------ path escaping

  /** `s.Replace(c, replacement)` for a one-character pattern. */
  function ReplaceAll(s: string, c: char, replacement: string): (r: string)
    ensures c !in replacement ==> c !in r
  {
    if s == [] then []
    else (if s[0] == c then replacement else [s[0]]) + ReplaceAll(s[1..], c, replacement)
  }

  lemma {:induction false} ReplaceAllAppend(a: string, b: string, c: char, replacement: string)
    ensures ReplaceAll(a + b, c, replacement) == ReplaceAll(a, c, replacement) + ReplaceAll(b, c, replacement)
  {
    if a != [] {
      assert (a + b)[0] == a[0];
      assert (a + b)[1..] == a[1..] + b;
      ReplaceAllAppend(a[1..], b, c, replacement);
    } else {
      assert a + b == b;
    }
  }

  /** `EncodePathForWebView2`: '%' becomes "%25", then '#' becomes "%23". */
  function EncodePathForWebView2(path: Option<string>): (r: Option<string>)
    ensures r.None? <==> path.None?
    ensures r.Some? ==> '#' !in r.value
  {
    match path
    case None => None
    case Some(p) => Some(ReplaceAll(ReplaceAll(p, '%', "%25"), '#', "%23"))
  }

  /** The escape of one character. */
  function EscapeChar(c: char): string {
    if c == '%' then "%25" else if c == '#' then "%23" else [c]
  }

  /** The character-by-character reading of the escaping. */
  function Escape(s: string): string {
    if s == [] then [] else EscapeChar(s[0]) + Escape(s[1..])
  }

  /** The two passes escape each character on its own: the first pass never produces a '#'. */
  lemma {:induction false} TwoPassesEscapeEachChar(s: string)
    ensures ReplaceAll(ReplaceAll(s, '%', "%25"), '#', "%23") == Escape(s)
  {
    if s != [] {
      var first := if s[0] == '%' then "%25" else [s[0]];
      assert ReplaceAll(s, '%', "%25") == first + ReplaceAll(s[1..], '%', "%25");
      ReplaceAllAppend(first, ReplaceAll(s[1..], '%', "%25"), '#', "%23");
      TwoPassesEscapeEachChar(s[1..]);
      if s[0] == '%' {
        assert ReplaceAll("%25", '#', "%23") == "%25" by {
          assert "%25"[1..] == "25" && "25"[1..] == "5" && "5"[1..] == [];
        }
      } else {
        assert ReplaceAll([s[0]], '#', "%23") == EscapeChar(s[0]) by {
          assert [s[0]][1..] == [];
        }
      }
    }
  }

  /** The browser-side reading: "%25" is '%', "%23" is '#', anything else stands for itself. */
  function Unescape(s: string): string
    decreases |s|
  {
    if |s| >= 3 && s[..3] == "%25" then "%" + Unescape(s[3..])
    else if |s| >= 3 && s[..3] == "%23" then "#" + Unescape(s[3..])
    else if s == [] then []
    else [s[0]] + Unescape(s[1..])
  }

  lemma {:induction false} UnescapeEscape(s: string)
    ensures Unescape(Escape(s)) == s
  {
    if s != [] {
      var e := Escape(s);
      var head := EscapeChar(s[0]);
      UnescapeEscape(s[1..]);
      assert e == head + Escape(s[1..]);
      assert e[..|head|] == head && e[|head|..] == Escape(s[1..]);
      if s[0] == '%' || s[0] == '#' {
        assert e[..3] == head;
      } else {
        assert e[0] == s[0] && e[1..] == Escape(s[1..]);
        assert |e| < 3 || (e[..3] != "%25" && e[..3] != "%23") by {
          if |e| >= 3 {
            assert e[..3][0] == s[0];
          }
        }
      }
      assert s == [s[0]] + s[1..];
    }
  }

  /** Decoding the escaped path left to right gives the path back. */
  lemma EncodeRoundTrip(path: string)
    ensures Unescape(EncodePathForWebView2(Some(path)).value) == path
  {
    TwoPassesEscapeEachChar(path);
    UnescapeEscape(path);
  }

  // ------------------------------------------------------ common prefix

  predicate IsPrefix(p: string, s: string) {
    |p| <= |s| && s[..|p|] == p
  }

  predicate IsCommonPrefix(p: string, strings: seq<string>) {
    forall k :: 0 <= k < |strings| ==> IsPrefix(p, strings[k])
  }

  /** `p` is a common prefix that every other common prefix is a prefix of. */
  ghost predicate IsLongestCommonPrefix(p: string, strings: seq<string>) {
    && IsCommonPrefix(p, strings)
    && forall q: string :: IsCommonPrefix(q, strings) ==> IsPrefix(q, p)
  }

  /** One round: the longest common prefix of `prefix` and `str` is `prefix[..j]`. */
  lemma CommonPrefixStep(strings: seq<string>, i: nat, prefix: string, j: nat)
    requires i < |strings|
    requires IsLongestCommonPrefix(prefix, strings[..i])
    requires j <= |prefix| && j <= |strings[i]| && prefix[..j] == strings[i][..j]
    requires j == |prefix| || j == |strings[i]| || prefix[j] != strings[i][j]
    ensures IsLongestCommonPrefix(prefix[..j], strings[..i + 1])
  {
    var p := prefix[..j];
    var t := strings[..i + 1];
    assert t == strings[..i] + [strings[i]];
    forall k | 0 <= k < |t|
      ensures IsPrefix(p, t[k])
    {
      if k < i {
        assert IsPrefix(prefix, strings[..i][k]);
      }
    }
    forall q: string | IsCommonPrefix(q, strings[..i + 1])
      ensures IsPrefix(q, p)
    {
      assert IsCommonPrefix(q, strings[..i]) by {
        forall k | 0 <= k < i
          ensures IsPrefix(q, strings[..i][k])
        {
          assert strings[..i][k] == strings[..i + 1][k];
        }
      }
      assert IsPrefix(q, prefix);
      assert IsPrefix(q, strings[..i + 1][i]);
    }
  }

  /**
   * `GetCommonPrefix(strings)`: null for no strings; otherwise the longest
   * common prefix, with the empty prefix turned into null. The scan stops
   * early once the prefix is empty.
   */
  method GetCommonPrefix(strings: seq<string>) returns (r: Option<string>)
    ensures strings == [] ==> r.None?
    ensures r.Some? ==> r.value != [] && IsLongestCommonPrefix(r.value, strings)
    ensures r.None? && strings != [] ==> IsLongestCommonPrefix([], strings)
  {
    if strings == [] {
      return None;
    }
    var prefix := strings[0];
    assert IsLongestCommonPrefix(prefix, strings[..1]) by {
      forall q: string | IsCommonPrefix(q, strings[..1])
        ensures IsPrefix(q, prefix)
      {
        assert strings[..1][0] == prefix;
      }
    }
    var i := 1;
    while i < |strings|
      invariant 1 <= i <= |strings|
      invariant IsLongestCommonPrefix(prefix, strings[..i])
    {
      var str := strings[i];
      var j := 0;
      while j < |prefix| && j < |str| && prefix[j] == str[j]
        invariant j <= |prefix| && j <= |str|
        invariant prefix[..j] == str[..j]
      {
        j := j + 1;
      }
      CommonPrefixStep(strings, i, prefix, j);
      prefix := prefix[..j];
      i := i + 1;
      if prefix == [] {
        EmptyPrefixStays(strings, i);
        i := |strings|;
      }
    }
    assert strings[..i] == strings;
    return Nullify(Some(prefix));
  }

  /** Once the common prefix of a leading part is empty, it is empty for the whole. */
  lemma EmptyPrefixStays(strings: seq<string>, i: nat)
    requires i <= |strings|
    requires IsLongestCommonPrefix([], strings[..i])
    ensures IsLongestCommonPrefix([], strings[..|strings|])
  {
    forall q: string | IsCommonPrefix(q, strings[..|strings|])
      ensures IsPrefix(q, [])
    {
      assert IsCommonPrefix(q, strings[..i]) by {
        forall k | 0 <= k < i
          ensures IsPrefix(q, strings[..i][k])
        {
          assert strings[..i][k] == strings[..|strings|][k];
        }
      }
    }
  }

  // ------------------------------------------------------ dictionary lookup

  /** `GetNullifiedString(dictionary, name)` */
  function GetNullifiedString(dictionary: Option<map<string, Option<string>>>, name: string): (r: Option<string>)
    ensures r.Some? <==> dictionary.Some? && name in dictionary.value
                         && dictionary.value[name].Some? && dictionary.value[name].value != ""
    ensures r.Some? ==> r == dictionary.value[name]
  {
    match dictionary
    case None => None
    case Some(d) => if name in d then Nullify(d[name]) else None
  }

  /**
   * Writing `name` into the dictionary decides what the lookup answers for
   * it, nullified, and leaves the answer for every other name alone.
   */
  lemma GetNullifiedStringAfterWrite(d: map<string, Option<string>>, written: string, value: Option<string>, name: string)
    ensures written == name ==> GetNullifiedString(Some(d[written := value]), name) == Nullify(value)
    ensures written != name ==>
      GetNullifiedString(Some(d[written := value]), name) == GetNullifiedString(Some(d), name)
  {
  }

  // ------------------------------------------------------ virtual keys

  // Win32 `VIRTUAL_KEY` codes.
  const VK_BACK := 0x08
  const VK_TAB := 0x09
  const VK_RETURN := 0x0D
  const VK_SHIFT := 0x10
  const VK_CONTROL := 0x11
  const VK_MENU := 0x12
  const VK_ESCAPE := 0x1B
  const VK_SPACE := 0x20
  const VK_PRIOR := 0x21
  const VK_NEXT := 0x22
  const VK_END := 0x23
  const VK_HOME := 0x24
  const VK_LEFT := 0x25
  const VK_UP := 0x26
  const VK_RIGHT := 0x27
  const VK_DOWN := 0x28
  const VK_DELETE := 0x2E
  const VK_0 := 0x30
  const VK_9 := 0x39
  const VK_A := 0x41
  const VK_Z := 0x5A
  const VK_NUMPAD0 := 0x60
  const VK_NUMPAD9 := 0x69
  const VK_MULTIPLY := 0x6A
  const VK_ADD := 0x6B
  const VK_SUBTRACT := 0x6D
  const VK_DECIMAL := 0x6E
  const VK_DIVIDE := 0x6F
  const VK_F1 := 0x70
  const VK_F24 := 0x87
  const VK_NUMLOCK := 0x90
  const VK_LSHIFT := 0xA0
  const VK_RSHIFT := 0xA1
  const VK_LCONTROL := 0xA2
  const VK_RCONTROL := 0xA3
  const VK_LMENU := 0xA4
  const VK_RMENU := 0xA5

  predicate IsNumericKeypadKey(vk: int) {
    || VK_NUMPAD0 <= vk <= VK_NUMPAD9
    || vk == VK_ADD || vk == VK_SUBTRACT || vk == VK_MULTIPLY || vk == VK_DIVIDE
    || vk == VK_DECIMAL || vk == VK_NUMLOCK
  }

  /** `IsDigit`: the digit row or any numeric-keypad key. */
  function IsDigitKey(vk: int): (r: bool)
    ensures '0' as int <= vk <= '9' as int ==> r
    ensures r <==> ('0' as int <= vk <= '9' as int) || IsNumericKeypadKey(vk)
  {
    (VK_0 <= vk <= VK_9) || IsNumericKeypadKey(vk)
  }

  /** `IsLetter`: letter keys carry the code of the upper-case ASCII letter. */
  function IsLetterKey(vk: int): (r: bool)
    ensures r <==> 'A' as int <= vk <= 'Z' as int
  {
    VK_A <= vk <= VK_Z
  }

  predicate IsControlKey(vk: int) { vk == VK_CONTROL || vk == VK_LCONTROL || vk == VK_RCONTROL }
  predicate IsShiftKey(vk: int) { vk == VK_SHIFT || vk == VK_LSHIFT || vk == VK_RSHIFT }
  predicate IsAltKey(vk: int) { vk == VK_MENU || vk == VK_LMENU || vk == VK_RMENU }

  /** `IsModifierKey`: control, shift or alt, in their generic, left and right forms. */
  function IsModifierKey(vk: int): (r: bool)
    ensures r <==> vk in {0x10, 0x11, 0x12, 0xA0, 0xA1, 0xA2, 0xA3, 0xA4, 0xA5}
  {
    IsControlKey(vk) || IsShiftKey(vk) || IsAltKey(vk)
  }

  /** `IsFunctionKey`: F1 to F24. */
  predicate IsFunctionKey(vk: int) {
    VK_F1 <= vk <= VK_F24
  }

  predicate IsNavigationKey(vk: int) {
    || vk == VK_LEFT || vk == VK_RIGHT || vk == VK_UP || vk == VK_DOWN
    || vk == VK_HOME || vk == VK_END || vk == VK_PRIOR || vk == VK_NEXT
  }

  predicate IsWhitespaceKey(vk: int) { vk == VK_SPACE || vk == VK_TAB || vk == VK_RETURN }
  predicate IsEnterKey(vk: int) { vk == VK_RETURN }

  /** `IsBackspaceKey`: Backspace, and Delete too. */
  function IsBackspaceKey(vk: int): (r: bool)
    ensures r <==> vk == 0x08 || vk == 0x2E
  {
    vk == VK_BACK || vk == VK_DELETE
  }

  predicate IsEscapeKey(vk: int) { vk == VK_ESCAPE }

  /**
   * Letter and digit keys carry character codes: a typed letter of either
   * case, folded to upper case, is a letter key, and nothing else folds to
   * one; the digit characters are digit keys, while the numeric keypad's
   * digits and operators count as digits without being characters at all.
   */
  lemma KeysOfCharacters(c: char)
    ensures IsLetterKey(Fold(c) as int) <==> 'a' <= c <= 'z' || 'A' <= c <= 'Z'
    ensures '0' <= c <= '9' ==> IsDigitKey(c as int) && !IsLetterKey(c as int)
    ensures forall vk :: IsNumericKeypadKey(vk) ==> IsDigitKey(vk) && !IsLetterKey(vk) && !('0' as int <= vk <= '9' as int)
  {
  }

  /**
   * The classes are disjoint, except that Enter is also whitespace: a key is
   * at most one of letter, digit, function, navigation, modifier,
   * whitespace, backspace and escape.
   */
  lemma KeyClassesDisjoint(vk: int)
    ensures IsEnterKey(vk) ==> IsWhitespaceKey(vk)
    ensures var classes := [IsLetterKey(vk), IsDigitKey(vk), IsFunctionKey(vk), IsNavigationKey(vk),
                            IsModifierKey(vk), IsWhitespaceKey(vk), IsBackspaceKey(vk), IsEscapeKey(vk)];
      forall i, j :: 0 <= i < j < |classes| ==> !(classes[i] && classes[j])
  {
  }
}
