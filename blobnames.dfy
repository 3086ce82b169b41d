/** Deriving the destination container ("code") and the thumbnail name from
    a blob name of the form <code>_<filename> (GetCodeFromFullFileName and
    GetFilenameFromFullFileName, ImageFunctions/Thumbnail.cs lines 135-155). */
module BlobNames {
  import opened Outcomes
  import opened Text

  /** The pieces that Split(new char[] { '_' }, RemoveEmptyEntries) returns:
      the non-empty runs of `s` that contain no '_'. */
  function Tokens(s: string): seq<string>
  {
    RemoveEmpty(SplitOn(s, '_'))
  }

  /** Every token is non-empty and free of '_'. */
  lemma TokensAreRuns(s: string)
    ensures forall i :: 0 <= i < |Tokens(s)| ==> Tokens(s)[i] != [] && '_' !in Tokens(s)[i]
  {
    SplitOnPieces(s, '_');
    RemoveEmptyKeeps(SplitOn(s, '_'));
  }

  /** GetCodeFromFullFileName: ArgumentException without '_', otherwise the
      first token, which does not exist (an index error) when there is none. */
  function GetCode(name: string): (r: Result<string>)
    ensures r == Err(ArgumentError) <==> '_' !in name
    ensures r.Err? ==> r.failure == ArgumentError || r.failure == IndexOutOfRange
    ensures r.Ok? ==> r.value != [] && '_' !in r.value
  {
    if '_' in name then
      var parts := Tokens(name);
      TokensAreRuns(name);
      if |parts| > 0 then Ok(parts[0]) else Err(IndexOutOfRange)
    else Err(ArgumentError)
  }

  /** GetFilenameFromFullFileName: the same, but the second token. */
  function GetFilename(name: string): (r: Result<string>)
    ensures r == Err(ArgumentError) <==> '_' !in name
    ensures r.Err? ==> r.failure == ArgumentError || r.failure == IndexOutOfRange
    ensures r.Ok? ==> r.value != [] && '_' !in r.value
  {
    if '_' in name then
      var parts := Tokens(name);
      TokensAreRuns(name);
      if |parts| > 1 then Ok(parts[1]) else Err(IndexOutOfRange)
    else Err(ArgumentError)
  }

  // An independent description of the tokens, as a scanner would find them:
  // skip separators, take the longest run without one, repeat.

  /** `s` without its leading '_' characters. */
  function DropSeparators(s: string): (r: string)
    ensures |r| <= |s| && r == s[|s| - |r|..]
    ensures r == [] || r[0] != '_'
    decreases |s|
  {
    if s != [] && s[0] == '_' then DropSeparators(s[1..]) else s
  }

  /** What DropSeparators drops is separators only. */
  lemma {:induction false} DroppedAreSeparators(s: string, i: nat)
    requires i < |s| - |DropSeparators(s)|
    ensures s[i] == '_'
    decreases i
  {
    if i > 0 {
      DroppedAreSeparators(s[1..], i - 1);
    }
  }

  /** The longest prefix of `s` that contains no '_'. */
  function LeadingRun(s: string): (r: string)
    ensures |r| <= |s| && r == s[..|r|]
    ensures '_' !in r
    ensures |r| < |s| ==> s[|r|] == '_'
    decreases |s|
  {
    if s == [] || s[0] == '_' then []
    else
      assert s == [s[0]] + s[1..];
      [s[0]] + LeadingRun(s[1..])
  }

  /** The runs of non-separators of `s`, left to right. */
  function Scan(s: string): (r: seq<string>)
    decreases |s|
  {
    var t := DropSeparators(s);
    if t == [] then []
    else
      var run := LeadingRun(t);
      [run] + Scan(t[|run|..])
  }

  /** A string of no '_' is its own single piece. */
  lemma SingleToken(s: string)
    requires s != [] && '_' !in s
    ensures Tokens(s) == [s]
  {
    SplitOnPieces(s, '_');
  }

  /** Tokens of the pieces on either side of a '_'. */
  lemma TokensAppend(a: string, b: string)
    ensures Tokens(a + "_" + b) == Tokens(a) + Tokens(b)
  {
    SplitOnAppend(a, b, '_');
    RemoveEmptyAppend(SplitOn(a, '_'), SplitOn(b, '_'));
  }

  /** Leading separators do not change the tokens. */
  lemma {:induction false} TokensDropSeparators(s: string)
    ensures Tokens(s) == Tokens(DropSeparators(s))
    decreases |s|
  {
    if s != [] && s[0] == '_' {
      TokensAppend([], s[1..]);
      assert [] + "_" + s[1..] == s;
      assert Tokens([]) == [];
      TokensDropSeparators(s[1..]);
    }
  }

  /** A run without separators followed by a separator contributes itself. */
  lemma TokensAfterRun(run: string, after: string)
    requires run != [] && '_' !in run
    ensures Tokens(run + "_" + after) == [run] + Tokens(after)
  {
    TokensAppend(run, after);
    SingleToken(run);
  }

  /** A leading separator contributes nothing. */
  lemma TokensAfterSeparator(s: string)
    requires s != [] && s[0] == '_'
    ensures Tokens(s) == Tokens(s[1..])
  {
    TokensAppend([], s[1..]);
    assert [] + "_" + s[1..] == s;
    assert Tokens([]) == [];
  }

  /** A string is its leading run, then (if anything is left) a separator
      and the rest. */
  lemma RunThenSeparator(t: string)
    requires |LeadingRun(t)| < |t|
    ensures var n := |LeadingRun(t)|;
            t == LeadingRun(t) + "_" + t[n + 1..] && t[n..] == "_" + t[n + 1..]
  {
    var n := |LeadingRun(t)|;
    assert t == t[..n] + t[n..];
    assert t[n..] == [t[n]] + t[n + 1..];
  }

  /** A string that starts with a non-separator: its tokens are its leading
      run, then the tokens of what follows the run. */
  lemma TokensOfRun(t: string)
    requires t != [] && t[0] != '_'
    ensures Tokens(t) == [LeadingRun(t)] + Tokens(t[|LeadingRun(t)|..])
  {
    var run := LeadingRun(t);
    var n := |run|;
    if n == |t| {
      assert t == run;
      SingleToken(run);
      assert t[n..] == [];
      assert Tokens([]) == [];
    } else {
      RunThenSeparator(t);
      TokensAfterRun(run, t[n + 1..]);
      TokensAfterSeparator(t[n..]);
      assert t[n..][1..] == t[n + 1..];
    }
  }

  /** Tokens obeys the scanner's recursion: skip separators, take a run,
      continue after it. */
  lemma TokensUnfold(s: string)
    ensures var t := DropSeparators(s);
            Tokens(s) == if t == [] then [] else [LeadingRun(t)] + Tokens(t[|LeadingRun(t)|..])
  {
    var t := DropSeparators(s);
    TokensDropSeparators(s);
    if t == [] {
      assert Tokens([]) == [];
    } else {
      TokensOfRun(t);
    }
  }

  /** The library split and the scanner agree on every string. */
  lemma {:induction false} TokensAreScan(s: string)
    ensures Tokens(s) == Scan(s)
    decreases |s|
  {
    TokensUnfold(s);
    var t := DropSeparators(s);
    if t != [] {
      TokensAreScan(t[|LeadingRun(t)|..]);
    }
  }

  /** A name made only of '_' has no tokens, and every other name has some. */
  lemma {:induction false} NoTokensIffOnlySeparators(s: string)
    ensures Tokens(s) == [] <==> forall i :: 0 <= i < |s| ==> s[i] == '_'
  {
    TokensAreScan(s);
    var t := DropSeparators(s);
    if t != [] {
      assert s[|s| - |t|] == t[0];
    } else {
      forall i | 0 <= i < |s| ensures s[i] == '_' {
        DroppedAreSeparators(s, i);
      }
    }
  }

  /** The code is the first run of non-separators: leading '_' are skipped and
      the code ends at the next '_'. */
  lemma CodeIsFirstRun(name: string)
    requires GetCode(name).Ok?
    ensures GetCode(name).value == LeadingRun(DropSeparators(name))
  {
    TokensAreScan(name);
  }

  /** The filename is the second run of non-separators, not what follows the
      first separator. */
  lemma FilenameIsSecondRun(name: string)
    requires GetFilename(name).Ok?
    ensures var t := DropSeparators(name);
            GetFilename(name).value == LeadingRun(DropSeparators(t[|LeadingRun(t)|..]))
  {
    var t := DropSeparators(name);
    var rest := t[|LeadingRun(t)|..];
    TokensAreScan(name);
    assert Scan(name) == [LeadingRun(t)] + Scan(rest);
    assert Scan(rest)[0] == LeadingRun(DropSeparators(rest));
  }

  /** With one '_' between two pieces, the pieces are the code and the
      filename. */
  lemma TwoPartName(code: string, file: string)
    requires code != [] && '_' !in code
    requires file != [] && '_' !in file
    ensures GetCode(code + "_" + file) == Ok(code)
    ensures GetFilename(code + "_" + file) == Ok(file)
  {
    TokensAppend(code, file);
    SingleToken(code);
    SingleToken(file);
    assert (code + "_" + file)[|code|] == '_';
  }

  /** With a second '_', the filename is only the middle piece: the rest of
      the name after the first separator is lost. */
  lemma FilenameIsNotRemainder(code: string, file: string, more: string)
    requires code != [] && '_' !in code
    requires file != [] && '_' !in file
    requires more != [] && '_' !in more
    ensures GetCode(code + "_" + file + "_" + more) == Ok(code)
    ensures GetFilename(code + "_" + file + "_" + more) == Ok(file)
    ensures GetFilename(code + "_" + file + "_" + more) != Ok(file + "_" + more)
  {
    var name := code + "_" + file + "_" + more;
    TokensAppend(code + "_" + file, more);
    TokensAppend(code, file);
    SingleToken(code);
    SingleToken(file);
    SingleToken(more);
    assert name[|code|] == '_';
    assert '_' in file + "_" + more by {
      assert (file + "_" + more)[|file|] == '_';
    }
  }

  /** Names with a separator but too few non-empty pieces fail with an index
      error, not with the ArgumentException the code raises for a missing
      separator: for the filename when there are fewer than two pieces, for
      the code when the name is made of '_' only. */
  lemma ShortNamesFailWithIndexError(name: string)
    ensures GetFilename(name) == Err(IndexOutOfRange) <==> '_' in name && |Tokens(name)| < 2
    ensures GetCode(name) == Err(IndexOutOfRange) <==>
            name != [] && forall i :: 0 <= i < |name| ==> name[i] == '_'
  {
    NoTokensIffOnlySeparators(name);
    if name != [] && forall i :: 0 <= i < |name| ==> name[i] == '_' {
      assert name[0] == '_';
    }
  }

  /** Empty pieces are dropped: separators before the code and doubled
      separators between code and filename change nothing. */
  lemma EmptyPiecesDropped(code: string, file: string)
    requires code != [] && '_' !in code
    requires file != [] && '_' !in file
    ensures var name := "_" + code + "__" + file;
            GetCode(name) == Ok(code) && GetFilename(name) == Ok(file)
  {
    var name := "_" + code + "__" + file;
    var tail := "_" + file;
    var middle := code + "_" + tail;
    assert Tokens(tail) == [file] by {
      TokensAfterSeparator(tail);
      assert tail[1..] == file;
      SingleToken(file);
    }
    assert Tokens(middle) == [code, file] by {
      TokensAfterRun(code, tail);
    }
    assert name == "_" + middle;
    TokensAfterSeparator(name);
    assert name[1..] == middle;
    assert name[0] == '_';
  }

  /** "_AB__x" has code "AB" and filename "x". */
  lemma EmptyPiecesExample(name: string)
    requires name == "_AB__x"
    ensures GetCode(name) == Ok("AB") && GetFilename(name) == Ok("x")
  {
    assert name == "_" + "AB" + "__" + "x";
    EmptyPiecesDropped("AB", "x");
  }

  /** Extra pieces are ignored: "AB_photo_final.png" has code "AB" and
      filename "photo". */
  lemma ExtraPiecesExample()
    ensures GetCode("AB_photo_final.png") == Ok("AB")
    ensures GetFilename("AB_photo_final.png") == Ok("photo")
  {
    assert "AB" + "_" + "photo" + "_" + "final.png" == "AB_photo_final.png";
    FilenameIsNotRemainder("AB", "photo", "final.png");
  }

  /** A single piece with a separator before or after it ("AB_", "_AB") has
      a code but no filename. */
  lemma SeparatorAtOneEnd(code: string)
    requires code != [] && '_' !in code
    ensures GetCode(code + "_") == Ok(code) && GetFilename(code + "_") == Err(IndexOutOfRange)
    ensures GetCode("_" + code) == Ok(code) && GetFilename("_" + code) == Err(IndexOutOfRange)
  {
    SingleToken(code);
    assert Tokens([]) == [];
    TokensAppend(code, []);
    assert code + "_" + [] == code + "_";
    assert (code + "_")[|code|] == '_';
    TokensAfterSeparator("_" + code);
    assert ("_" + code)[1..] == code;
  }

  /** "___" has neither a code nor a filename, and fails with an index
      error in both. */
  lemma AllSeparatorsExample(name: string)
    requires name == "___"
    ensures GetCode(name) == Err(IndexOutOfRange) && GetFilename(name) == Err(IndexOutOfRange)
  {
    ShortNamesFailWithIndexError(name);
    NoTokensIffOnlySeparators(name);
  }
}
