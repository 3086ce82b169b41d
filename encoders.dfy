/** Choosing the image encoder from a file extension (GetEncoder,
    ImageFunctions/Thumbnail.cs lines 41-71). */
module Encoders {
  import opened Outcomes
  import opened Text

  /** The three encoders the function can pick. */
  datatype Format = Png | Jpeg | Gif

  /** The extensions the switch recognises, in lower case. */
  predicate IsSupportedName(name: string)
  {
    name == "png" || name == "jpg" || name == "jpeg" || name == "gif"
  }

  /** The regular-expression pre-filter: "gif|png|jpe?g" found anywhere in
      `s`, ignoring case ("jpe?g" matches "jpg" and "jpeg"). */
  predicate MatchesSupportedPattern(s: string)
  {
    || ContainsIgnoreCase(s, "gif")
    || ContainsIgnoreCase(s, "png")
    || ContainsIgnoreCase(s, "jpg")
    || ContainsIgnoreCase(s, "jpeg")
  }

  /** The switch on the lower-cased extension; the default case leaves the
      encoder unset. */
  function SelectFormat(name: string): (r: Option<Format>)
  {
    if name == "png" then Some(Png)
    else if name == "jpg" then Some(Jpeg)
    else if name == "jpeg" then Some(Jpeg)
    else if name == "gif" then Some(Gif)
    else None
  }

  /** A string whose lower-case form is `pat` begins with `pat` ignoring case,
      so the scan finds it. */
  lemma LowerEqualIsFound(s: string, pat: string)
    requires Lower(s) == pat
    ensures ContainsIgnoreCase(s, pat)
  {
    assert s[..|pat|] == s;
  }

  /** The pre-filter never rejects an extension the switch would accept, so
      it does not change which encoder is chosen. */
  lemma {:induction false} PrefilterAdmitsSupported(s: string)
    requires IsSupportedName(Lower(s))
    ensures MatchesSupportedPattern(s)
  {
    LowerEqualIsFound(s, Lower(s));
  }

  /** The extension as the switch sees it: every '.' removed, lower case. */
  function Normalize(extension: string): string
  {
    Lower(RemoveAll(extension, '.'))
  }

  /** GetEncoder: remove every '.', apply the pre-filter, then switch on the
      lower-cased result.  The pre-filter turns out never to matter: the
      encoder is the switch's choice for the normalized extension. */
  function GetEncoder(extension: string): (r: Option<Format>)
    ensures r == SelectFormat(Normalize(extension))
  {
    var ext := RemoveAll(extension, '.');
    if MatchesSupportedPattern(ext) then SelectFormat(Lower(ext))
    else
      assert !IsSupportedName(Lower(ext)) by {
        if IsSupportedName(Lower(ext)) { PrefilterAdmitsSupported(ext); }
      }
      None
  }

  /** An encoder is chosen exactly for png, jpg, jpeg and gif (after removing
      dots and lower-casing); jpg and jpeg both choose Jpeg. */
  lemma EncoderChoice(extension: string)
    ensures var name := Normalize(extension);
            && (GetEncoder(extension) == Some(Png) <==> name == "png")
            && (GetEncoder(extension) == Some(Jpeg) <==> name == "jpg" || name == "jpeg")
            && (GetEncoder(extension) == Some(Gif) <==> name == "gif")
            && (GetEncoder(extension) == None <==> !IsSupportedName(name))
  {
  }

  /** Removing dots and lower-casing commute ('.' is not a letter). */
  lemma {:induction false} RemoveDotsLower(s: string)
    ensures RemoveAll(Lower(s), '.') == Lower(RemoveAll(s, '.'))
    decreases |s|
  {
    if s != [] {
      RemoveDotsLower(s[1..]);
      assert Lower(s)[1..] == Lower(s[1..]);
      assert Lower(s) == [LowerChar(s[0])] + Lower(s)[1..];
      var rest := RemoveAll(s[1..], '.');
      if s[0] == '.' {
        assert RemoveAll(s, '.') == rest;
      } else {
        assert RemoveAll(s, '.') == [s[0]] + rest;
        assert Lower([s[0]] + rest) == [LowerChar(s[0])] + Lower(rest);
      }
    }
  }

  /** The chosen encoder does not depend on letter case. */
  lemma EncoderIgnoresCase(extension: string)
    ensures GetEncoder(Lower(extension)) == GetEncoder(extension)
  {
    RemoveDotsLower(extension);
    LowerIdempotent(RemoveAll(extension, '.'));
  }

  /** Removing dots from a string with one more dot gives the same result. */
  lemma RemoveDotInside(before: string, after: string)
    ensures RemoveAll(before + "." + after, '.') == RemoveAll(before + after, '.')
  {
    var withDot := before + ".";
    RemoveAllAppend(withDot, after, '.');
    RemoveAllAppend(before, ".", '.');
    RemoveAllAppend(before, after, '.');
    assert RemoveAll(".", '.') == [];
    assert RemoveAll(withDot, '.') == RemoveAll(before, '.');
  }

  /** The chosen encoder does not depend on where dots are, or how many:
      inserting a '.' anywhere changes nothing. */
  lemma EncoderIgnoresDots(before: string, after: string)
    ensures GetEncoder(before + "." + after) == GetEncoder(before + after)
  {
    RemoveDotInside(before, after);
  }

  /** The usual form of an extension, a dot and a lower-case name: the
      encoder is the switch's choice for the name. */
  lemma DottedLowerCase(name: string)
    requires '.' !in name
    requires forall i :: 0 <= i < |name| ==> !IsUpper(name[i])
    ensures Normalize("." + name) == name
    ensures GetEncoder("." + name) == SelectFormat(name)
  {
    RemoveAllAppend(".", name, '.');
    assert RemoveAll(".", '.') == [];
    assert RemoveAll("." + name, '.') == name by {
      assert RemoveAll(name, '.') == name;
      assert [] + name == name;
    }
    LowerOfLowerCase(name);
  }

  /** The pre-filter is not the test: "xpng" passes it, since it contains
      "png", even though the switch gives it no encoder. */
  lemma PrefilterIsNotTheTest(ext: string)
    requires ext == "xpng"
    ensures MatchesSupportedPattern(ext) && GetEncoder(ext) == None
  {
    assert ContainsIgnoreCase(ext, "png") by {
      assert OccursAt(ext, "png", 1) by {
        assert ext[1..][..3] == "png";
        assert Lower("png") == "png";
      }
      OccurrenceIsFound(ext, "png", 1);
    }
    assert Normalize(ext) == ext by {
      assert RemoveAll(ext, '.') == ext;
      LowerOfLowerCase(ext);
    }
  }

  /** Likewise "pngs", which begins with "png". */
  lemma PrefilterPrefixExample(ext: string)
    requires ext == "pngs"
    ensures MatchesSupportedPattern(ext) && GetEncoder(ext) == None
  {
    assert ContainsIgnoreCase(ext, "png") by {
      assert StartsWithIgnoreCase(ext, "png") by {
        assert ext[..3] == "png";
        assert Lower("png") == "png";
      }
    }
    assert Normalize(ext) == ext by {
      assert RemoveAll(ext, '.') == ext;
      LowerOfLowerCase(ext);
    }
  }
}
