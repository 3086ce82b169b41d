/** The handful of .NET string operations the thumbnail function relies on:
    String.Replace(".", ""), String.ToLower, a case-insensitive substring
    search (what Regex.IsMatch does for a pattern of literal alternatives)
    and String.Split(char[], StringSplitOptions). */
module Text {

  /** `s` with every occurrence of `c` removed: String.Replace(c, ""). */
  function RemoveAll(s: string, c: char): (r: string)
    ensures c !in r
    ensures c !in s ==> r == s
    ensures |r| <= |s|
  {
    if s == [] then []
    else
      assert s == [s[0]] + s[1..];
      (if s[0] == c then [] else [s[0]]) + RemoveAll(s[1..], c)
  }

  /** Removing `c` from a concatenation removes it from each part. */
  lemma {:induction false} RemoveAllAppend(a: string, b: string, c: char)
    ensures RemoveAll(a + b, c) == RemoveAll(a, c) + RemoveAll(b, c)
    decreases |a|
  {
    if a != [] {
      assert (a + b)[1..] == a[1..] + b;
      RemoveAllAppend(a[1..], b, c);
    } else {
      assert a + b == b;
    }
  }

  /** Exactly the occurrences of `c` are removed: together with
      RemoveAllAppend and the case of a string without `c`, this determines
      the result. */
  lemma {:induction false} RemoveAllLength(s: string, c: char)
    ensures |RemoveAll(s, c)| == |s| - multiset(s)[c]
    decreases |s|
  {
    if s != [] {
      RemoveAllLength(s[1..], c);
      assert s == [s[0]] + s[1..];
      assert multiset(s) == multiset([s[0]]) + multiset(s[1..]);
    }
  }

  predicate IsUpper(ch: char) { 'A' <= ch <= 'Z' }

  /** Lower-case mapping of a character (ASCII letters only). */
  function LowerChar(ch: char): (r: char)
    ensures !IsUpper(r)
    ensures !IsUpper(ch) ==> r == ch
    ensures IsUpper(ch) ==> 'a' <= r <= 'z' && r as int - ch as int == 'a' as int - 'A' as int
  {
    if IsUpper(ch) then (ch as int - 'A' as int + 'a' as int) as char else ch
  }

  /** String.ToLower, character by character. */
  function Lower(s: string): (r: string)
    ensures |r| == |s|
  {
    if s == [] then [] else [LowerChar(s[0])] + Lower(s[1..])
  }

  /** Lower-casing works character by character. */
  lemma {:induction false} LowerAt(s: string, i: nat)
    requires i < |s|
    ensures Lower(s)[i] == LowerChar(s[i])
    decreases i
  {
    if i > 0 {
      LowerAt(s[1..], i - 1);
    }
  }

  /** A string without upper-case letters is its own lower-case form. */
  lemma {:induction false} LowerOfLowerCase(s: string)
    requires forall i :: 0 <= i < |s| ==> !IsUpper(s[i])
    ensures Lower(s) == s
    decreases |s|
  {
    if s != [] {
      LowerOfLowerCase(s[1..]);
    }
  }

  /** Lower-casing is idempotent. */
  lemma LowerIdempotent(s: string)
    ensures Lower(Lower(s)) == Lower(s)
  {
  }

  /** `s` begins with `pat`, compared without regard to case (`pat` is
      expected to be lower case, as the patterns below are). */
  predicate StartsWithIgnoreCase(s: string, pat: string)
  {
    |pat| <= |s| && Lower(s[..|pat|]) == pat
  }

  /** `pat` occurs somewhere in `s`, case-insensitively: a scan from the left,
      as a regular-expression engine tries each starting position. */
  function ContainsIgnoreCase(s: string, pat: string): (b: bool)
    decreases |s|
  {
    StartsWithIgnoreCase(s, pat) || (s != [] && ContainsIgnoreCase(s[1..], pat))
  }

  /** `pat` occurs in `s` at position `i`, case-insensitively. */
  predicate OccursAt(s: string, pat: string, i: int)
  {
    0 <= i <= |s| && StartsWithIgnoreCase(s[i..], pat)
  }

  /** An occurrence at any position is found by the scan. */
  lemma {:induction false} OccurrenceIsFound(s: string, pat: string, i: int)
    requires OccursAt(s, pat, i)
    ensures ContainsIgnoreCase(s, pat)
    decreases i
  {
    if i == 0 {
      assert s[i..] == s;
    } else {
      assert s[1..][i - 1..] == s[i..];
      OccurrenceIsFound(s[1..], pat, i - 1);
    }
  }

  /** What the scan finds is an occurrence at some position. */
  lemma {:induction false} FoundIsOccurrence(s: string, pat: string)
    requires ContainsIgnoreCase(s, pat)
    ensures exists i :: OccursAt(s, pat, i)
    decreases |s|
  {
    if StartsWithIgnoreCase(s, pat) {
      assert s[0..] == s;
      assert OccursAt(s, pat, 0);
    } else {
      FoundIsOccurrence(s[1..], pat);
      var i :| OccursAt(s[1..], pat, i);
      assert s[1..][i..] == s[i + 1..];
      assert OccursAt(s, pat, i + 1);
    }
  }

  /** The scan finds `pat` exactly when it occurs at some position of `s`. */
  lemma ContainsIgnoreCaseAt(s: string, pat: string)
    ensures ContainsIgnoreCase(s, pat) <==> exists i :: OccursAt(s, pat, i)
  {
    if ContainsIgnoreCase(s, pat) {
      FoundIsOccurrence(s, pat);
    }
    if exists i :: OccursAt(s, pat, i) {
      var i :| OccursAt(s, pat, i);
      OccurrenceIsFound(s, pat, i);
    }
  }

  /** String.Split(new char[] { c }): every piece between two occurrences of
      `c`, empty pieces included. */
  function SplitOn(s: string, c: char): (r: seq<string>)
    ensures |r| >= 1
    decreases |s|
  {
    if s == [] then [[]]
    else
      var rest := SplitOn(s[1..], c);
      if s[0] == c then [[]] + rest
      else [[s[0]] + rest[0]] + rest[1..]
  }

  /** No piece of a split contains the separator, and a string without it
      is a single piece. */
  lemma {:induction false} SplitOnPieces(s: string, c: char)
    ensures forall i :: 0 <= i < |SplitOn(s, c)| ==> c !in SplitOn(s, c)[i]
    ensures c !in s ==> SplitOn(s, c) == [s]
    decreases |s|
  {
    if s != [] {
      SplitOnPieces(s[1..], c);
      assert s == [s[0]] + s[1..];
    }
  }

  /** String.Join(c, pieces): the inverse of SplitOn. */
  function Join(pieces: seq<string>, c: char): (r: string)
    requires |pieces| >= 1
    decreases |pieces|
  {
    if |pieces| == 1 then pieces[0] else pieces[0] + [c] + Join(pieces[1..], c)
  }

  /** Joining the pieces of a split gives back the original string. */
  lemma {:induction false} JoinSplitOn(s: string, c: char)
    ensures Join(SplitOn(s, c), c) == s
    decreases |s|
  {
    if s != [] {
      var rest := SplitOn(s[1..], c);
      JoinSplitOn(s[1..], c);
      assert s == [s[0]] + s[1..];
      var pieces := SplitOn(s, c);
      if s[0] == c {
        assert pieces == [[]] + rest;
        assert pieces[1..] == rest;
      } else if |rest| == 1 {
        assert pieces == [[s[0]] + rest[0]];
      } else {
        assert pieces == [[s[0]] + rest[0]] + rest[1..];
        assert pieces[1..] == rest[1..];
        assert Join(rest, c) == rest[0] + [c] + Join(rest[1..], c);
      }
    }
  }

  /** Splitting at an occurrence of `c` splits each side separately. */
  lemma {:induction false} SplitOnAppend(a: string, b: string, c: char)
    ensures SplitOn(a + [c] + b, c) == SplitOn(a, c) + SplitOn(b, c)
    decreases |a|
  {
    var s := a + [c] + b;
    if a == [] {
      assert s[1..] == b;
    } else {
      assert s[1..] == a[1..] + [c] + b;
      SplitOnAppend(a[1..], b, c);
    }
  }

  /** Splitting the join of pieces that do not contain `c` gives back the
      pieces. */
  lemma {:induction false} SplitOnJoin(pieces: seq<string>, c: char)
    requires |pieces| >= 1
    requires forall i :: 0 <= i < |pieces| ==> c !in pieces[i]
    ensures SplitOn(Join(pieces, c), c) == pieces
    decreases |pieces|
  {
    SplitOnPieces(pieces[0], c);
    if |pieces| > 1 {
      SplitOnJoin(pieces[1..], c);
      SplitOnAppend(pieces[0], Join(pieces[1..], c), c);
      assert pieces == [pieces[0]] + pieces[1..];
    }
  }

  /** StringSplitOptions.RemoveEmptyEntries: the non-empty pieces, in order. */
  function RemoveEmpty(pieces: seq<string>): (r: seq<string>)
    ensures |r| <= |pieces|
    decreases |pieces|
  {
    if pieces == [] then []
    else (if pieces[0] == [] then [] else [pieces[0]]) + RemoveEmpty(pieces[1..])
  }

  /** What RemoveEmpty keeps is non-empty and one of the pieces. */
  lemma {:induction false} RemoveEmptyKeeps(pieces: seq<string>)
    ensures forall i :: 0 <= i < |RemoveEmpty(pieces)| ==>
              RemoveEmpty(pieces)[i] != [] && RemoveEmpty(pieces)[i] in pieces
    decreases |pieces|
  {
    if pieces != [] {
      RemoveEmptyKeeps(pieces[1..]);
      assert pieces == [pieces[0]] + pieces[1..];
    }
  }

  /** Exactly the empty pieces are dropped: with RemoveEmptyKeeps and
      RemoveEmptyAppend, this determines the result. */
  lemma {:induction false} RemoveEmptyLength(pieces: seq<string>)
    ensures |RemoveEmpty(pieces)| == |pieces| - multiset(pieces)[[]]
    decreases |pieces|
  {
    if pieces != [] {
      RemoveEmptyLength(pieces[1..]);
      assert pieces == [pieces[0]] + pieces[1..];
      assert multiset(pieces) == multiset([pieces[0]]) + multiset(pieces[1..]);
    }
  }

  /** Dropping empty pieces commutes with concatenation. */
  lemma {:induction false} RemoveEmptyAppend(a: seq<string>, b: seq<string>)
    ensures RemoveEmpty(a + b) == RemoveEmpty(a) + RemoveEmpty(b)
    decreases |a|
  {
    if a == [] {
      assert a + b == b;
    } else {
      assert (a + b)[1..] == a[1..] + b;
      RemoveEmptyAppend(a[1..], b);
    }
  }
}
