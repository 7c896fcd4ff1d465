/** The file-name test shared by the directory walk and the legacy file
    input: a name is accepted when it ends with a dot followed by one of the
    requested extensions. The comparison is on characters exactly as given, so
    it is case-sensitive, and the dot is part of the required suffix. */
module Matching {

  /** `String.prototype.endsWith` without a position argument: the last
      `|suffix|` characters of `s` are, one by one, those of `suffix`. */
  predicate EndsWith(s: string, suffix: string)
    ensures EndsWith(s, suffix) <==>
            |suffix| <= |s| && forall k :: 0 <= k < |suffix| ==> s[|s| - |suffix| + k] == suffix[k]
  {
    |suffix| <= |s| && s[|s| - |suffix|..] == suffix
  }

  /** `name.endsWith(`.${ext}`)`: the name is longer than `ext`, ends with
      `ext`, and has a literal '.' right before it. */
  predicate HasExtension(name: string, ext: string)
    ensures HasExtension(name, ext) <==>
            |name| > |ext| && name[|name| - |ext| - 1] == '.' && name[|name| - |ext|..] == ext
  {
    EndsWith(name, "." + ext)
  }

  /** `extensions.some(ext => name.endsWith(`.${ext}`))`, scanning the list
      from the front and stopping at the first hit. */
  predicate IsValidName(name: string, extensions: seq<string>)
    ensures IsValidName(name, extensions) <==>
            exists ext :: ext in extensions && HasExtension(name, ext)
  {
    assert |extensions| > 0 ==> extensions == [extensions[0]] + extensions[1..];
    |extensions| > 0 &&
    (HasExtension(name, extensions[0]) || IsValidName(name, extensions[1..]))
  }

  /** With the single extension "mp3", the bare "mp3" and "xmp3" are rejected:
      the dot is part of the required suffix. */
  lemma LiteralDotRequired()
    ensures !IsValidName("mp3", ["mp3"])
    ensures !IsValidName("xmp3", ["mp3"])
  {
    assert ["mp3"][1..] == [];
    assert !HasExtension("mp3", "mp3");
    assert !HasExtension("xmp3", "mp3") by {
      assert "xmp3"[0] == 'x';
    }
  }

  /** With the single extension "mp3", "a.MP3" is rejected and "a.mp3" is
      accepted: the comparison is case-sensitive. */
  lemma CaseSensitive()
    ensures !IsValidName("a.MP3", ["mp3"])
    ensures IsValidName("a.mp3", ["mp3"])
  {
    assert ["mp3"][1..] == [];
    assert !HasExtension("a.MP3", "mp3") by {
      assert "a.MP3"[2..][0] == 'M';
    }
    assert HasExtension("a.mp3", "mp3") by {
      assert "a.mp3"[1] == '.';
      assert "a.mp3"[2..] == "mp3";
    }
  }
}
