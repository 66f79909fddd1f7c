/** The text normaliser `clean_text` of the recommender: lower-case, delete
    every ASCII punctuation character, then trim surrounding whitespace.
    The model is restricted to ASCII case mapping and ASCII whitespace. */
module TextNormalizer {

  /** The 32 characters of Python's `string.punctuation`. */
  const Punctuation: string := "!\"#$%&'()*+,-./:;<=>?@[\\]^_`{|}~"

  predicate IsPunct(c: char) {
    c in Punctuation
  }

  predicate IsUpper(c: char) {
    'A' <= c <= 'Z'
  }

  /** ASCII characters for which Python's `str.isspace` holds:
      tab, line feed, vertical tab, form feed, carriage return,
      the four information separators 0x1C..0x1F, and space. */
  predicate IsSpace(c: char) {
    c == ' ' || '\t' <= c <= '\r' || '\U{1C}' <= c <= '\U{1F}'
  }

  /** `str.lower` on one character. */
  function Lower(c: char): (r: char)
    ensures !IsUpper(r)
    ensures IsUpper(c) ==> r as int == c as int + 32
    ensures !IsUpper(c) ==> r == c
  {
    if IsUpper(c) then (c as int + 32) as char else c
  }

  /** `str.lower` on a string. */
  function LowerStr(s: string): (r: string)
    ensures |r| == |s|
    ensures forall i :: 0 <= i < |s| ==> r[i] == Lower(s[i])
    ensures forall i :: 0 <= i < |r| ==> !IsUpper(r[i])
  {
    seq(|s|, i requires 0 <= i < |s| => Lower(s[i]))
  }

  /** `str.translate` with a table that deletes `string.punctuation`. */
  function RemovePunct(s: string): (r: string)
    ensures |r| <= |s|
  {
    if s == [] then []
    else if IsPunct(s[0]) then RemovePunct(s[1..])
    else [s[0]] + RemovePunct(s[1..])
  }

  /** Number of whitespace characters at the front of `s`. */
  function LeadingSpace(s: string): (n: nat)
    ensures n <= |s|
    ensures forall i :: 0 <= i < n ==> IsSpace(s[i])
    ensures n < |s| ==> !IsSpace(s[n])
  {
    if s == [] || !IsSpace(s[0]) then 0 else 1 + LeadingSpace(s[1..])
  }

  /** Number of whitespace characters at the back of `s`. */
  function TrailingSpace(s: string): (n: nat)
    ensures n <= |s|
    ensures forall i :: |s| - n <= i < |s| ==> IsSpace(s[i])
    ensures n < |s| ==> !IsSpace(s[|s| - 1 - n])
  {
    if s == [] || !IsSpace(s[|s| - 1]) then 0 else 1 + TrailingSpace(s[..|s| - 1])
  }

  /** `str.strip` with no argument. */
  function Strip(s: string): string {
    var t := s[LeadingSpace(s)..];
    t[..|t| - TrailingSpace(t)]
  }

  /** `clean_text`: lower, delete punctuation, strip. */
  function Clean(text: string): string {
    Strip(RemovePunct(LowerStr(text)))
  }

  // ---------------------------------------------------------------------
  // Properties of the three stages

  /** Deleting punctuation keeps every other character, with its
      multiplicity, and leaves no punctuation behind. */
  lemma {:induction false} RemovePunctCounts(s: string)
    ensures forall c :: IsPunct(c) ==> multiset(RemovePunct(s))[c] == 0
    ensures forall c :: !IsPunct(c) ==> multiset(RemovePunct(s))[c] == multiset(s)[c]
  {
    if s != [] {
      RemovePunctCounts(s[1..]);
      assert s == [s[0]] + s[1..];
    }
  }

  /** Deleting punctuation distributes over concatenation. */
  lemma {:induction false} RemovePunctAppend(a: string, b: string)
    ensures RemovePunct(a + b) == RemovePunct(a) + RemovePunct(b)
  {
    if a == [] {
      assert a + b == b;
    } else {
      assert (a + b)[1..] == a[1..] + b;
      RemovePunctAppend(a[1..], b);
    }
  }

  /** Every character of the result of `RemovePunct` comes from the input
      and is not punctuation. */
  lemma {:induction false} RemovePunctChars(s: string)
    ensures forall i :: 0 <= i < |RemovePunct(s)| ==>
      !IsPunct(RemovePunct(s)[i]) && RemovePunct(s)[i] in s
  {
    if s != [] {
      RemovePunctChars(s[1..]);
      var r := RemovePunct(s);
      forall i | 0 <= i < |r| ensures !IsPunct(r[i]) && r[i] in s {
        if !IsPunct(s[0]) && i > 0 {
          assert r[i] == RemovePunct(s[1..])[i - 1];
        }
      }
    }
  }

  /** Deleting punctuation adds no upper-case letter. */
  lemma {:induction false} RemovePunctNoUpper(s: string)
    requires forall i :: 0 <= i < |s| ==> !IsUpper(s[i])
    ensures forall i :: 0 <= i < |RemovePunct(s)| ==> !IsUpper(RemovePunct(s)[i])
  {
    if s != [] {
      RemovePunctNoUpper(s[1..]);
    }
  }

  /** A string without punctuation is left unchanged. */
  lemma {:induction false} RemovePunctIdentity(s: string)
    requires forall i :: 0 <= i < |s| ==> !IsPunct(s[i])
    ensures RemovePunct(s) == s
  {
    if s != [] {
      RemovePunctIdentity(s[1..]);
    }
  }

  /** A string without upper-case ASCII letters is its own lower-case form. */
  lemma LowerIdentity(s: string)
    requires forall i :: 0 <= i < |s| ==> !IsUpper(s[i])
    ensures LowerStr(s) == s
  {
  }

  /** `Strip` keeps the slice of its input between the leading and the
      trailing whitespace. */
  lemma StripSlice(s: string)
    ensures var lo := LeadingSpace(s);
      && lo + |Strip(s)| <= |s|
      && Strip(s) == s[lo..lo + |Strip(s)|]
      && |s| - (lo + |Strip(s)|) == TrailingSpace(s[lo..])
  {
  }

  /** Character i of the stripped text is character `LeadingSpace(s) + i`
      of the input. */
  lemma StripAt(s: string)
    ensures forall i :: 0 <= i < |Strip(s)| ==>
      LeadingSpace(s) + i < |s| && Strip(s)[i] == s[LeadingSpace(s) + i]
  {
    StripSlice(s);
  }

  /** What `Strip` drops is whitespace. */
  lemma StripDropsSpace(s: string)
    ensures forall i :: 0 <= i < LeadingSpace(s) ==> IsSpace(s[i])
    ensures forall i :: LeadingSpace(s) + |Strip(s)| <= i < |s| ==> IsSpace(s[i])
  {
    var lo := LeadingSpace(s);
    var t := s[lo..];
    StripSlice(s);
    forall i | lo + |Strip(s)| <= i < |s| ensures IsSpace(s[i]) {
      assert s[i] == t[i - lo];
    }
  }

  /** What `Strip` keeps neither starts nor ends with whitespace. */
  lemma StripEdges(s: string)
    ensures var r := Strip(s);
      r != [] ==> !IsSpace(r[0]) && !IsSpace(r[|r| - 1])
  {
    var lo := LeadingSpace(s);
    var t := s[lo..];
    var hi := TrailingSpace(t);
    var r := Strip(s);
    if r != [] {
      assert r[0] == t[0] == s[lo];
      assert r[|r| - 1] == t[|t| - 1 - hi];
    }
  }

  /** A string with no whitespace at either end is left unchanged by `Strip`. */
  lemma StripIdentity(s: string)
    requires s == [] || (!IsSpace(s[0]) && !IsSpace(s[|s| - 1]))
    ensures Strip(s) == s
  {
    assert LeadingSpace(s) == 0;
    assert s[0..] == s;
    assert TrailingSpace(s) == 0;
  }

  // ---------------------------------------------------------------------
  // Properties of clean_text

  /** The cleaned text holds no punctuation and no upper-case ASCII letter,
      and it neither starts nor ends with whitespace. */
  lemma CleanShape(text: string)
    ensures var r := Clean(text);
      && (forall i :: 0 <= i < |r| ==> !IsPunct(r[i]) && !IsUpper(r[i]))
      && (r != [] ==> !IsSpace(r[0]) && !IsSpace(r[|r| - 1]))
  {
    var l := LowerStr(text);
    var p := RemovePunct(l);
    RemovePunctChars(l);
    RemovePunctNoUpper(l);
    StripAt(p);
    StripEdges(p);
  }

  /** Cleaning the empty text gives the empty text. */
  lemma CleanEmpty()
    ensures Clean("") == ""
  {
    assert LowerStr("") == "";
  }

  /** Cleaning is idempotent. */
  lemma CleanIdempotent(text: string)
    ensures Clean(Clean(text)) == Clean(text)
  {
    var r := Clean(text);
    CleanShape(text);
    LowerIdentity(r);
    RemovePunctIdentity(r);
    StripIdentity(r);
  }
}
