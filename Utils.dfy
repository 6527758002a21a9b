/** `format_filename` (utils.py): `re.sub(r'[^\w\-_\. ]', '_', name).strip()`.
    Every character outside the class of word characters, `-`, `_`, `.` and
    space becomes `_` in place, and the white space at both ends is then cut. */
module Utils {
  import opened Strings

  /** A word character (`\w`), taken as the ASCII letters, digits and `_`. */
  predicate IsWordChar(c: char) {
    ('a' <= c <= 'z') || ('A' <= c <= 'Z') || ('0' <= c <= '9') || c == '_'
  }

  /** The characters the class `[\w\-_\. ]` admits. */
  predicate Allowed(c: char) {
    IsWordChar(c) || c == '-' || c == '_' || c == '.' || c == ' '
  }

  /** An admitted character is kept; any other becomes `_`. */
  function Replace(c: char): (r: char)
    ensures Allowed(r)
    ensures Allowed(c) ==> r == c
    ensures !Allowed(c) ==> r == '_'
  {
    if Allowed(c) then c else '_'
  }

  /** The `re.sub` step: the same length, and each position either keeps its
      admitted character or holds `_`. */
  function Sanitize(s: string): (r: string)
    ensures |r| == |s|
    ensures forall i :: 0 <= i < |s| ==> r[i] == Replace(s[i])
  {
    if s == [] then [] else [Replace(s[0])] + Sanitize(s[1..])
  }

  /** `format_filename(name)`: only admitted characters, no longer than the
      input, and no space at either end. */
  function FormatFilename(name: string): (r: string)
    ensures |r| <= |name|
    ensures forall i :: 0 <= i < |r| ==> Allowed(r[i])
    ensures r != [] ==> r[0] != ' ' && r[|r| - 1] != ' '
  {
    StripKeepsAllowed(Sanitize(name));
    Strip(Sanitize(name))
  }

  /** `strip()` keeps a slice of its input, so it keeps a string of admitted
      characters one. */
  lemma StripKeepsAllowed(s: string)
    requires forall i :: 0 <= i < |s| ==> Allowed(s[i])
    ensures forall i :: 0 <= i < |Strip(s)| ==> Allowed(Strip(s)[i])
  {
    var a := StripDropsOnlySpace(s);
    assert forall i :: 0 <= i < |Strip(s)| ==> Strip(s)[i] == s[a + i];
  }

  /** Among the admitted characters, the only white space is the space itself. */
  lemma AllowedSpaceIsBlank(c: char)
    requires Allowed(c) && IsSpace(c)
    ensures c == ' '
  {
  }

  /** The result is a window of the substituted name: position `j` of the result
      comes from position `a + j` of the input, kept if admitted and `_`
      otherwise, and `strip()` removed only spaces on either side of it. */
  lemma FormatFilenameWindow(name: string) returns (a: nat)
    ensures var r := FormatFilename(name);
            && a + |r| <= |name|
            && (forall j :: 0 <= j < |r| ==> r[j] == Replace(name[a + j]))
            && (forall i :: 0 <= i < a ==> Sanitize(name)[i] == ' ')
            && (forall i :: a + |r| <= i < |name| ==> Sanitize(name)[i] == ' ')
  {
    var s := Sanitize(name);
    a := StripDropsOnlySpace(s);
    var r := FormatFilename(name);
    assert r == s[a..a + |r|];
    forall j | 0 <= j < |r| ensures r[j] == Replace(name[a + j]) {
      assert r[j] == s[a + j];
    }
    forall i | 0 <= i < |name| && (i < a || a + |r| <= i) ensures s[i] == ' ' {
      AllowedSpaceIsBlank(s[i]);
    }
  }

  /** A string of admitted characters is untouched by the substitution. */
  lemma {:induction false} SanitizeFixed(s: string)
    requires forall i :: 0 <= i < |s| ==> Allowed(s[i])
    ensures Sanitize(s) == s
  {
    if s != [] {
      SanitizeFixed(s[1..]);
    }
  }

  /** A name made only of admitted characters, with no space at either end, is
      returned as it is. */
  lemma FormatFilenameFixed(name: string)
    requires forall i :: 0 <= i < |name| ==> Allowed(name[i])
    requires name != [] ==> name[0] != ' ' && name[|name| - 1] != ' '
    ensures FormatFilename(name) == name
  {
    SanitizeFixed(name);
    if name != [] {
      if IsSpace(name[0]) { AllowedSpaceIsBlank(name[0]); }
      if IsSpace(name[|name| - 1]) { AllowedSpaceIsBlank(name[|name| - 1]); }
    }
    StripUnchanged(name);
  }

  /** Formatting a formatted name changes nothing. */
  lemma FormatFilenameIdempotent(name: string)
    ensures FormatFilename(FormatFilename(name)) == FormatFilename(name)
  {
    FormatFilenameFixed(FormatFilename(name));
  }

  /** A path separator and a colon become `_`. */
  lemma FormatFilenameReplaces()
    ensures FormatFilename("a/b:c.txt") == "a_b_c.txt"
  {
    var name := "a/b:c.txt";
    var s := Sanitize(name);
    assert Replace(name[1]) == '_' && Replace(name[3]) == '_';
    assert s == "a_b_c.txt";
    FormatFilenameFixed("a_b_c.txt");
  }

  /** Surrounding spaces are cut; inner ones stay. */
  lemma FormatFilenameStrips()
    ensures FormatFilename(" a b ") == "a b"
  {
    var name := " a b ";
    SanitizeFixed(name);
    assert IsSpace(name[0]) && !IsSpace(name[1]);
    assert name[1..] == "a b ";
    assert TrimStart(name) == "a b ";
    var t := "a b ";
    assert IsSpace(t[3]) && !IsSpace(t[2]);
    assert t[..3] == "a b";
    assert TrimEnd(t) == "a b";
  }
}
