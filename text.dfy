/** The few string operations of Python, pandas and SQLite that the system relies on. */
module Text {

  import opened Sequences

  /** Python's `str.isspace`: the characters `str.strip()` removes. */
  function IsSpace(c: char): (space: bool)
    ensures c == ' ' || c == '\t' || c == '\n' || c == '\r' ==> space
    ensures space ==> !('a' <= c <= 'z') && !('A' <= c <= 'Z') && !('0' <= c <= '9') && c != '_' && c != '-'
  {
    || ('\t' <= c <= '\r')              // \t \n \v \f \r
    || ('\U{1C}' <= c <= '\U{1F}')      // file, group, record and unit separators
    || c == ' ' || c == '\U{85}' || c == '\U{A0}' || c == '\U{1680}'
    || ('\U{2000}' <= c <= '\U{200A}')
    || c == '\U{2028}' || c == '\U{2029}' || c == '\U{202F}' || c == '\U{205F}' || c == '\U{3000}'
  }

  /** Index of the first non-whitespace character of `s` at or after `i`, or `|s|`. */
  function SkipForward(s: string, i: nat): (k: nat)
    requires i <= |s|
    ensures i <= k <= |s|
    ensures forall j :: i <= j < k ==> IsSpace(s[j])
    ensures k == |s| || !IsSpace(s[k])
    decreases |s| - i
  {
    if i == |s| || !IsSpace(s[i]) then i else SkipForward(s, i + 1)
  }

  /** End of `s[lo..hi]` once its trailing whitespace is cut off. */
  function SkipBackward(s: string, lo: nat, hi: nat): (k: nat)
    requires lo <= hi <= |s|
    ensures lo <= k <= hi
    ensures forall j :: k <= j < hi ==> IsSpace(s[j])
    ensures k == lo || !IsSpace(s[k - 1])
    decreases hi
  {
    if hi == lo || !IsSpace(s[hi - 1]) then hi else SkipBackward(s, lo, hi - 1)
  }

  /** Python's `str.strip()` with no argument. */
  function Strip(s: string): (r: string)
    ensures |r| <= |s|
    ensures r == [] || (!IsSpace(r[0]) && !IsSpace(r[|r| - 1]))
    ensures (forall c :: c in s ==> IsSpace(c)) <==> r == []
  {
    var lo := SkipForward(s, 0);
    var hi := SkipBackward(s, lo, |s|);
    s[lo..hi]
  }

  /** What `Strip` removes is whitespace at either end, and nothing else. */
  lemma StripIsTrim(s: string) returns (lo: nat, hi: nat)
    ensures lo <= hi <= |s| && Strip(s) == s[lo..hi]
    ensures forall j :: 0 <= j < lo ==> IsSpace(s[j])
    ensures forall j :: hi <= j < |s| ==> IsSpace(s[j])
  {
    lo := SkipForward(s, 0);
    hi := SkipBackward(s, lo, |s|);
  }

  lemma StripIsSubsequence(s: string)
    ensures IsSubsequence(Strip(s), s)
  {
    var lo, hi := StripIsTrim(s);
    SliceIsSubsequence(s, lo, hi);
  }

  /** A string without surrounding whitespace is its own strip; in particular `Strip` is idempotent. */
  lemma StripFixpoint(s: string)
    requires s == [] || (!IsSpace(s[0]) && !IsSpace(s[|s| - 1]))
    ensures Strip(s) == s
  {
    var lo, hi := StripIsTrim(s);
    if s != [] {
      assert lo == 0;
      assert hi == |s|;
    }
  }

  /** ASCII upper-case letter. */
  predicate IsUpper(c: char)
  {
    'A' <= c <= 'Z'
  }

  /** Lower-casing restricted to ASCII, as SQLite's LIKE folds case. */
  function LowerChar(c: char): (d: char)
    ensures !IsUpper(d)
    ensures IsSpace(d) <==> IsSpace(c)
    ensures !IsUpper(c) ==> d == c
  {
    if IsUpper(c) then (c as int + 32) as char else c
  }

  function Lower(s: string): (r: string)
    ensures |r| == |s|
    ensures forall i :: 0 <= i < |s| ==> r[i] == LowerChar(s[i])
  {
    seq(|s|, i requires 0 <= i < |s| => LowerChar(s[i]))
  }

  /** Lower-casing twice is lower-casing once. */
  lemma LowerIdempotent(s: string)
    ensures Lower(Lower(s)) == Lower(s)
  {
  }

  /** Every occurrence of `a` in `s` replaced by `b` (pandas `str.replace(a, b, regex=False)` for one character). */
  function ReplaceChar(s: string, a: char, b: char): (r: string)
    ensures |r| == |s|
    ensures forall i :: 0 <= i < |s| ==> r[i] == (if s[i] == a then b else s[i])
  {
    seq(|s|, i requires 0 <= i < |s| => if s[i] == a then b else s[i])
  }

  /** `t` occurs in `s` as a contiguous block (Python's `t in s`). */
  function IsSubstring(t: string, s: string): (found: bool)
    ensures t <= s ==> found
    ensures found ==> |t| <= |s| && forall c :: c in t ==> c in s
  {
    assert s[0..] == s;
    if exists i :: 0 <= i <= |s| && t <= s[i..] then
      var i :| 0 <= i <= |s| && t <= s[i..];
      assert forall c :: c in t ==> c in s by {
        forall c | c in t ensures c in s {
          var k :| 0 <= k < |t| && t[k] == c;
          assert s[i + k] == c;
        }
      }
      true
    else false
  }
}
