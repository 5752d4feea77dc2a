/** The names a publication accepts: one safe Windows path component for the target, "wim" or "esd" for the
    staged image, and a target whose extension is that of the staged image. */
module PublishNames {
  import opened Wrappers
  import opened Text

  predicate ForbiddenCharacter(c: char) {
    c <= '\U{1f}' || c in {'<', '>', ':', '"', '/', '\\', '|', '?', '*'}
  }

  function Upper(s: string): (u: string)
    ensures |u| == |s|
  {
    seq(|s|, i requires 0 <= i < |s| => AsciiUpper(s[i]))
  }

  predicate ReservedText(upper: string) {
    || upper in {"CON", "PRN", "AUX", "NUL"}
    || (|upper| == 4 && upper[..3] in {"COM", "LPT"} && '1' <= upper[3] <= '9')
  }

  predicate ReservedDeviceName(s: string) {
    ReservedText(Upper(SplitAt(s, '.')[0]))
  }

  /** A name that is one safe Windows path component. */
  predicate ValidComponent(s: string) {
    && s != "" && s != "." && s != ".."
    && s[|s| - 1] != '.' && s[|s| - 1] != ' '
    && (forall i :: 0 <= i < |s| ==> !ForbiddenCharacter(s[i]))
    && !ReservedDeviceName(s)
  }

  predicate ValidExtension(s: string) {
    ValidComponent(s) && '.' !in s && (s == "wim" || s == "esd")
  }

  /** The text after the last dot, when the dot is not the first character. */
  function FileExtension(name: string): Option<string> {
    var dot :- LastOccurrence(name, ".", |name|);
    if dot == 0 then None else Some(name[dot + 1..])
  }

  predicate MatchingExtension(targetName: string, stagedExtension: string) {
    var extension := FileExtension(targetName);
    extension.Some? && Upper(extension.value) == Upper(stagedExtension)
  }

  // ---------------------------------------------------------------------------------------------
  // Case
  // ---------------------------------------------------------------------------------------------

  lemma UpperIsEqualButCase(s: string, t: string)
    ensures Upper(s) == Upper(t) <==> EqualButCase(s, t)
  {
    if Upper(s) == Upper(t) {
      forall i | 0 <= i < |s| ensures SameButCase(s[i], t[i]) {
        assert Upper(s)[i] == Upper(t)[i];
      }
    }
  }

  // ---------------------------------------------------------------------------------------------
  // Extensions
  // ---------------------------------------------------------------------------------------------

  /** `name` is a non-empty text, a dot, and an extension without dots. */
  predicate EndsWithExtension(name: string, base: string, extension: string) {
    base != "" && '.' !in extension && name == base + "." + extension
  }

  lemma ExtensionOf(base: string, extension: string)
    requires base != "" && '.' !in extension
    ensures FileExtension(base + "." + extension) == Some(extension)
  {
    var name := base + "." + extension;
    assert OccursAt(name, ".", |base|) by { assert name[|base|..|base| + 1] == "."; }
    forall i: nat | |base| < i < |name| ensures !OccursAt(name, ".", i) {
      assert name[i] == extension[i - |base| - 1];
      assert i + 1 <= |name| ==> name[i..i + 1][0] == name[i];
    }
    assert name[|base| + 1..] == extension;
  }

  /** A name with an extension matches exactly the staged extensions that differ from it in case only. */
  lemma MatchingExtensionIs(base: string, extension: string, staged: string)
    requires base != "" && '.' !in extension
    ensures MatchingExtension(base + "." + extension, staged) <==> EqualButCase(extension, staged)
  {
    ExtensionOf(base, extension);
    UpperIsEqualButCase(extension, staged);
  }

  /** The names that match a staged extension: those that end in a dot and that extension in any case, with
      something in front. */
  lemma MatchingExtensionExactly(name: string, staged: string)
    ensures MatchingExtension(name, staged) <==>
      exists base, extension :: EndsWithExtension(name, base, extension) && EqualButCase(extension, staged)
  {
    if MatchingExtension(name, staged) {
      var dot := LastOccurrence(name, ".", |name|).value;
      var base, extension := name[..dot], name[dot + 1..];
      assert name[dot] == name[dot..dot + 1][0] == '.';
      forall i | 0 <= i < |extension| ensures extension[i] != '.' {
        var at := dot + 1 + i;
        assert !OccursAt(name, ".", at);
        assert name[at..at + 1] == [extension[i]];
      }
      assert EndsWithExtension(name, base, extension);
      UpperIsEqualButCase(extension, staged);
    }
    forall base, extension | EndsWithExtension(name, base, extension) && EqualButCase(extension, staged)
      ensures MatchingExtension(name, staged)
    {
      MatchingExtensionIs(base, extension, staged);
    }
  }

  // ---------------------------------------------------------------------------------------------
  // Components
  // ---------------------------------------------------------------------------------------------

  const DEVICES: seq<string> := [
    "CON", "PRN", "AUX", "NUL",
    "COM1", "COM2", "COM3", "COM4", "COM5", "COM6", "COM7", "COM8", "COM9",
    "LPT1", "LPT2", "LPT3", "LPT4", "LPT5", "LPT6", "LPT7", "LPT8", "LPT9" ]

  /** `s` is the device's name in any case, alone or in front of a dot. */
  predicate NamesDevice(s: string, device: string) {
    && |device| <= |s| && EqualButCase(s[..|device|], device)
    && (|device| < |s| ==> s[|device|] == '.')
  }

  /** The text in front of the first dot. */
  lemma {:induction false} StemIs(s: string)
    ensures var stem := SplitAt(s, '.')[0];
      && |stem| <= |s| && s[..|stem|] == stem && '.' !in stem && (|stem| < |s| ==> s[|stem|] == '.')
  {
    if s != "" && s[0] != '.' {
      StemIs(s[1..]);
    }
  }

  lemma ReservedTextIsDevice(upper: string) returns (k: nat)
    requires ReservedText(upper)
    ensures k < 22 && upper == DEVICES[k]
  {
    if |upper| == 4 && upper[..3] in {"COM", "LPT"} && '1' <= upper[3] <= '9' {
      k := (if upper[..3] == "COM" then 3 else 12) + (upper[3] as int - '0' as int);
      assert upper == upper[..3] + [upper[3]];
    } else {
      k := if upper == "CON" then 0 else if upper == "PRN" then 1 else if upper == "AUX" then 2 else 3;
    }
  }

  lemma DeviceIsReservedText(k: nat)
    requires k < 22
    ensures ReservedText(DEVICES[k])
  {
    if k >= 4 { assert DEVICES[k][..3] == if k < 13 then "COM" else "LPT"; }
  }

  /** A name's stem, in upper case, is a device exactly when the name names that device. */
  lemma DeviceIsStem(s: string, stem: string, device: string)
    requires |stem| <= |s| && s[..|stem|] == stem && '.' !in stem && (|stem| < |s| ==> s[|stem|] == '.')
    requires Upper(device) == device && '.' !in device
    ensures Upper(stem) == device <==> NamesDevice(s, device)
  {
    UpperIsEqualButCase(stem, device);
    assert forall i :: 0 <= i < |stem| ==> s[i] == stem[i] != '.';
    if NamesDevice(s, device) {
      forall i | 0 <= i < |device| ensures s[i] != '.' {
        assert SameButCase(s[..|device|][i], device[i]);
      }
    }
  }

  lemma DevicesAreUpper(k: nat)
    requires k < 22
    ensures Upper(DEVICES[k]) == DEVICES[k] && '.' !in DEVICES[k]
  {
    var device := DEVICES[k];
    forall i | 0 <= i < |device| ensures Upper(device)[i] == device[i] && device[i] != '.' {
      assert 'A' <= device[i] <= 'Z' || '1' <= device[i] <= '9';
    }
  }

  /** A name is reserved exactly when it is the name of a DOS device, in any case, alone or in front of a dot. */
  lemma ReservedDeviceNameExactly(s: string)
    ensures ReservedDeviceName(s) <==> exists k :: 0 <= k < 22 && NamesDevice(s, DEVICES[k])
  {
    StemIs(s);
    var stem := SplitAt(s, '.')[0];
    if ReservedDeviceName(s) {
      var k := ReservedTextIsDevice(Upper(stem));
    }
    forall k | 0 <= k < 22
      ensures Upper(stem) == DEVICES[k] <==> NamesDevice(s, DEVICES[k])
      ensures ReservedText(DEVICES[k])
    {
      DeviceIsReservedText(k);
      DevicesAreUpper(k);
      DeviceIsStem(s, stem, DEVICES[k]);
    }
  }

  /** The code points that no component may hold: the control characters and " * / : < > ? \ |. */
  lemma ForbiddenCharacterExactly(c: char)
    ensures ForbiddenCharacter(c) <==> c as int < 32 || c as int in {34, 42, 47, 58, 60, 62, 63, 92, 124}
  {
  }

  /** The components: not empty, no forbidden code point, no final dot or space, and not a DOS device. */
  lemma ValidComponentExactly(s: string)
    ensures ValidComponent(s) <==>
      && s != "" && s[|s| - 1] as int !in {32, 46}
      && (forall i :: 0 <= i < |s| ==>
            s[i] as int >= 32 && s[i] as int !in {34, 42, 47, 58, 60, 62, 63, 92, 124})
      && (forall k :: 0 <= k < 22 ==> !NamesDevice(s, DEVICES[k]))
  {
    ReservedDeviceNameExactly(s);
    forall i | 0 <= i < |s|
      ensures ForbiddenCharacter(s[i]) <==>
        s[i] as int < 32 || s[i] as int in {34, 42, 47, 58, 60, 62, 63, 92, 124}
    {
      ForbiddenCharacterExactly(s[i]);
    }
  }

  /** A stem of more than four characters is no device. */
  lemma LongStemIsNoDevice(s: string)
    requires |s| > 4 && s[3] != '.' && s[4] != '.'
    ensures forall k :: 0 <= k < 22 ==> !NamesDevice(s, DEVICES[k])
  {
    forall k | 0 <= k < 22 ensures |DEVICES[k]| == if k < 4 then 3 else 4 {
    }
  }

  /** Exactly two staged extensions are accepted. */
  lemma ValidExtensionExactly(s: string)
    ensures ValidExtension(s) <==> s == "wim" || s == "esd"
  {
    if s == "wim" || s == "esd" {
      ValidComponentExactly(s);
      forall k | 0 <= k < 22 ensures !NamesDevice(s, DEVICES[k]) {
        if |DEVICES[k]| == 3 { assert SameButCase(s[..3][0], DEVICES[k][0]) ==> false; }
      }
    }
  }
}
