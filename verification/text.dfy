/**
 * The string and list primitives the note composer is written with, stated
 * as the JavaScript built-ins it calls behave: `indexOf`, `split`, `join`,
 * `replace` of a single character, `toLowerCase`, `includes`-guarded pushes
 * and `trim().length > 0`.
 */
module Text {

  datatype Option<+T> = None | Some(value: T)

  // ---------------------------------------------------------------------
  // Searching and splitting
  // ---------------------------------------------------------------------

  /** `pat` occurs in `s` starting at position `j`. */
  predicate OccursAt(s: string, pat: string, j: int)
  {
    0 <= j && j + |pat| <= |s| && s[j..j + |pat|] == pat
  }

  lemma OccursAtTail(s: string, pat: string, j: int)
    requires 1 <= j && |s| >= 1
    ensures OccursAt(s, pat, j) == OccursAt(s[1..], pat, j - 1)
  {
    if j + |pat| <= |s| {
      assert s[1..][j - 1..j - 1 + |pat|] == s[j..j + |pat|];
    }
  }

  /** `String.prototype.indexOf`: the first position at which `pat` occurs in `s`. */
  function IndexOf(s: string, pat: string): (r: Option<nat>)
    requires |pat| > 0
    ensures r.Some? ==> OccursAt(s, pat, r.value)
    ensures r.Some? ==> forall j :: 0 <= j < r.value ==> !OccursAt(s, pat, j)
    ensures r.None? ==> forall j :: !OccursAt(s, pat, j)
    decreases |s|
  {
    if |s| < |pat| then None
    else if s[..|pat|] == pat then Some(0)
    else
      var rest := IndexOf(s[1..], pat);
      assert forall j :: 1 <= j ==> OccursAt(s, pat, j) == OccursAt(s[1..], pat, j - 1) by {
        forall j | 1 <= j ensures OccursAt(s, pat, j) == OccursAt(s[1..], pat, j - 1) {
          OccursAtTail(s, pat, j);
        }
      }
      match rest
      case None => None
      case Some(k) => Some(k + 1)
  }

  /** `String.prototype.split` with a non-empty separator: the pieces between the
      successive left-most, non-overlapping occurrences of `sep`. */
  function Split(s: string, sep: string): (parts: seq<string>)
    requires |sep| > 0
    ensures |parts| >= 1
    decreases |s|
  {
    match IndexOf(s, sep)
    case None => [s]
    case Some(k) => [s[..k]] + Split(s[k + |sep|..], sep)
  }

  /** `Array.prototype.join`. */
  function Join(parts: seq<string>, sep: string): string
  {
    if |parts| == 0 then ""
    else if |parts| == 1 then parts[0]
    else parts[0] + sep + Join(parts[1..], sep)
  }

  lemma {:induction false} JoinSnoc(parts: seq<string>, x: string, sep: string)
    ensures Join(parts + [x], sep) == if parts == [] then x else Join(parts, sep) + sep + x
  {
    if |parts| >= 2 {
      assert (parts + [x])[1..] == parts[1..] + [x];
      JoinSnoc(parts[1..], x, sep);
    } else if |parts| == 1 {
      assert (parts + [x])[1..] == [x];
    }
  }

  /** No occurrence of `sep` starts inside `x` in `x + sep + y`, when one character
      of `sep` is absent from `x` and from the part of `sep` before it. */
  lemma NoEarlyOccurrence(x: string, sep: string, y: string, c: nat)
    requires c < |sep| && sep[c] !in x && sep[c] !in sep[..c]
    ensures forall j :: 0 <= j < |x| ==> !OccursAt(x + sep + y, sep, j)
  {
    var s := x + sep + y;
    forall j | 0 <= j < |x| ensures !OccursAt(s, sep, j) {
      var i := j + c;
      if i < |x| {
        assert s[i] == x[i];
      } else {
        assert s[i] == sep[i - |x|];
        assert sep[..c][i - |x|] == sep[i - |x|];
      }
      if j + |sep| <= |s| {
        assert s[j..j + |sep|][c] == s[i];
      }
    }
  }

  lemma FirstOccurrenceAfter(x: string, sep: string, y: string, c: nat)
    requires c < |sep| && sep[c] !in x && sep[c] !in sep[..c]
    ensures IndexOf(x + sep + y, sep) == Some(|x|)
  {
    var s := x + sep + y;
    assert s[|x|..|x| + |sep|] == sep;
    assert OccursAt(s, sep, |x|);
    NoEarlyOccurrence(x, sep, y, c);
  }

  lemma NoOccurrence(x: string, sep: string, c: nat)
    requires c < |sep| && sep[c] !in x
    ensures IndexOf(x, sep) == None
  {
    forall j ensures !OccursAt(x, sep, j) {
      if 0 <= j && j + |sep| <= |x| {
        assert x[j..j + |sep|][c] == x[j + c];
      }
    }
  }

  /** Splitting a join undoes it when the first character of the separator
      occurs in none of the pieces. */
  lemma {:induction false} SplitJoin(parts: seq<string>, sep: string)
    requires |sep| > 0 && |parts| >= 1
    requires forall p :: p in parts ==> sep[0] !in p
    ensures Split(Join(parts, sep), sep) == parts
  {
    if |parts| == 1 {
      NoOccurrence(parts[0], sep, 0);
    } else {
      var rest := Join(parts[1..], sep);
      FirstOccurrenceAfter(parts[0], sep, rest, 0);
      var s := parts[0] + sep + rest;
      assert s[..|parts[0]|] == parts[0];
      assert s[|parts[0]| + |sep|..] == rest;
      SplitJoin(parts[1..], sep);
    }
  }

  // ---------------------------------------------------------------------
  // Character edits
  // ---------------------------------------------------------------------

  /** `toLowerCase` on one character; only the ASCII letters are mapped. */
  function LowerChar(c: char): char
  {
    if 'A' <= c <= 'Z' then (c as int + 32) as char else c
  }

  /** `String.prototype.toLowerCase`, character by character. */
  function Lower(s: string): (r: string)
    ensures |r| == |s|
    ensures forall i :: 0 <= i < |s| ==> r[i] == LowerChar(s[i])
  {
    seq(|s|, i requires 0 <= i < |s| => LowerChar(s[i]))
  }

  lemma LowerAppend(a: string, b: string)
    ensures Lower(a + b) == Lower(a) + Lower(b)
  {
  }

  /** Lower-casing a comma-joined list is joining the lower-cased items. */
  lemma {:induction false} LowerJoin(parts: seq<string>)
    ensures Lower(Join(parts, ", ")) == Join(LowerAll(parts), ", ")
  {
    if |parts| >= 2 {
      assert LowerAll(parts)[1..] == LowerAll(parts[1..]);
      LowerJoin(parts[1..]);
      LowerAppend(parts[0] + ", ", Join(parts[1..], ", "));
      LowerAppend(parts[0], ", ");
      assert Lower(", ") == ", ";
    }
  }

  function LowerAll(parts: seq<string>): (r: seq<string>)
    ensures |r| == |parts|
    ensures forall i :: 0 <= i < |parts| ==> r[i] == Lower(parts[i])
  {
    seq(|parts|, i requires 0 <= i < |parts| => Lower(parts[i]))
  }

  /** `s.replace(")", "")` with a one-character pattern: only the first occurrence goes. */
  function RemoveFirst(s: string, c: char): string
  {
    if s == [] then []
    else if s[0] == c then s[1..]
    else [s[0]] + RemoveFirst(s[1..], c)
  }

  lemma {:induction false} RemoveFirstAfter(x: string, c: char, y: string)
    requires c !in x
    ensures RemoveFirst(x + [c] + y, c) == x + y
  {
    if x != [] {
      assert (x + [c] + y)[1..] == x[1..] + [c] + y;
      RemoveFirstAfter(x[1..], c, y);
    }
  }

  // ---------------------------------------------------------------------
  // Lists with `includes`-guarded pushes
  // ---------------------------------------------------------------------

  predicate Distinct<T(==)>(s: seq<T>)
  {
    forall i, j :: 0 <= i < j < |s| ==> s[i] != s[j]
  }

  /** `if (!acc.includes(x)) acc.push(x)`. */
  function AppendNew<T(==)>(acc: seq<T>, x: T): seq<T>
  {
    if x in acc then acc else acc + [x]
  }

  /** The distinct elements of `s` in order of first occurrence. */
  function Dedup<T(==, !new)>(s: seq<T>): (r: seq<T>)
    ensures forall x :: x in r <==> x in s
    ensures Distinct(r)
  {
    if s == [] then [] else AppendNew(Dedup(s[..|s| - 1]), s[|s| - 1])
  }

  lemma DedupSnoc<T(!new)>(s: seq<T>, x: T)
    ensures Dedup(s + [x]) == AppendNew(Dedup(s), x)
  {
    assert (s + [x])[..|s|] == s;
  }

  lemma DedupOfDistinct<T(!new)>(s: seq<T>)
    requires Distinct(s)
    ensures Dedup(s) == s
  {
    if s != [] {
      var init, last := s[..|s| - 1], s[|s| - 1];
      assert Distinct(init) by {
        forall i, j | 0 <= i < j < |init| ensures init[i] != init[j] {
          assert init[i] == s[i] && init[j] == s[j];
        }
      }
      assert last !in init by {
        forall i | 0 <= i < |init| ensures init[i] != last {
          assert init[i] == s[i];
        }
      }
      DedupOfDistinct(init);
      assert s == init + [last];
    }
  }

  /** How many times `x` occurs in `s`. */
  function Count<T(==)>(s: seq<T>, x: T): (n: nat)
    ensures n > 0 <==> x in s
  {
    if s == [] then 0
    else Count(s[..|s| - 1], x) + (if s[|s| - 1] == x then 1 else 0)
  }

  lemma CountSnoc<T>(s: seq<T>, y: T, x: T)
    ensures Count(s + [y], x) == Count(s, x) + (if y == x then 1 else 0)
  {
    assert (s + [y])[..|s|] == s;
  }

  // ---------------------------------------------------------------------
  // Blank strings, as `s.trim().length > 0` sees them
  // ---------------------------------------------------------------------

  /** The characters `String.prototype.trim` removes: white space and line terminators. */
  predicate IsWhitespace(c: char)
  {
    c == '\t' || c == '\n' || c == '\U{B}' || c == '\U{C}' || c == '\r' || c == ' '
    || c == '\U{A0}' || c == '\U{1680}' || ('\U{2000}' <= c <= '\U{200A}')
    || c == '\U{2028}' || c == '\U{2029}' || c == '\U{202F}' || c == '\U{205F}'
    || c == '\U{3000}' || c == '\U{FEFF}'
  }

  /** Every character is white space; read from the front, the way `trim`
      consumes it. */
  predicate IsBlank(s: string)
  {
    s == [] || (IsWhitespace(s[0]) && IsBlank(s[1..]))
  }

  /** A string that opens with a capital letter is not blank, whatever
      follows it. */
  lemma LeadingLetter(p: string, x: string)
    requires |p| > 0 && 'A' <= p[0] <= 'Z'
    ensures !IsBlank(p + x)
  {
    assert (p + x)[0] == p[0];
    assert !IsWhitespace(p[0]);
  }

  /** One character that is not white space anywhere makes a string non-blank. */
  lemma {:induction false} NotBlankAt(s: string, i: nat)
    requires i < |s| && !IsWhitespace(s[i])
    ensures !IsBlank(s)
  {
    if i > 0 {
      NotBlankAt(s[1..], i - 1);
    }
  }

  /** `parts.filter(s => s.trim().length > 0)`. */
  function NonBlank(parts: seq<string>): (r: seq<string>)
    ensures forall p :: p in r ==> p in parts && !IsBlank(p)
  {
    if parts == [] then []
    else (if IsBlank(parts[0]) then [] else [parts[0]]) + NonBlank(parts[1..])
  }

  lemma {:induction false} NonBlankKeepsAll(parts: seq<string>)
    requires forall p :: p in parts ==> !IsBlank(p)
    ensures NonBlank(parts) == parts
  {
    if parts != [] {
      NonBlankKeepsAll(parts[1..]);
    }
  }

  /** Filtering a list extended by one part filters the list and then the part. */
  lemma {:induction false} NonBlankSnoc(parts: seq<string>, x: string)
    ensures NonBlank(parts + [x]) == NonBlank(parts) + (if IsBlank(x) then [] else [x])
  {
    if parts != [] {
      assert (parts + [x])[1..] == parts[1..] + [x];
      NonBlankSnoc(parts[1..], x);
    }
  }

  /** A prefix one longer is the prefix and the next element. */
  lemma TakeOneMore<T>(s: seq<T>, j: nat)
    requires j < |s|
    ensures s[..j + 1] == s[..j] + [s[j]]
  {
  }
}
