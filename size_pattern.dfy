/** Matching of wide-flange size names such as "W14X730" against the regular
    expression W(\d+)X(\d+), the way Python's re.search scans a string: the
    leftmost start position at which the pattern matches wins, and each digit
    group takes as many digits as it can. */
module SizePattern {
  import opened Results

  predicate IsDigit(c: char) {
    '0' <= c <= '9'
  }

  /** Every character of s[lo..hi] is a decimal digit. */
  predicate DigitsIn(s: string, lo: nat, hi: nat)
    requires lo <= hi <= |s|
  {
    forall k :: lo <= k < hi ==> IsDigit(s[k])
  }

  predicate AllDigits(s: string) {
    DigitsIn(s, 0, |s|)
  }

  /** The number a run of digits denotes, as Python's int() reads it
      (leading zeros are allowed). */
  function DecimalValue(ds: string): nat
    requires AllDigits(ds)
  {
    if ds == [] then 0
    else DecimalValue(ds[..|ds| - 1]) * 10 + (ds[|ds| - 1] as int - '0' as int)
  }

  function DigitChar(d: nat): (c: char)
    requires d < 10
    ensures IsDigit(c) && c as int - '0' as int == d
  {
    ('0' as int + d) as char
  }

  /** The decimal spelling of n, as Python's str() writes it: at least one
      digit and no leading zero. */
  function DecimalString(n: nat): (s: string)
    ensures |s| >= 1 && AllDigits(s)
    ensures s[0] == '0' <==> n == 0
    decreases n
  {
    if n < 10 then [DigitChar(n)] else DecimalString(n / 10) + [DigitChar(n % 10)]
  }

  lemma {:induction false} DecimalStringValue(n: nat)
    ensures DecimalValue(DecimalString(n)) == n
    decreases n
  {
    var s := DecimalString(n);
    if n < 10 {
      assert s[..|s| - 1] == [];
    } else {
      assert s[..|s| - 1] == DecimalString(n / 10);
      DecimalStringValue(n / 10);
    }
  }

  /** The length of the longest run of digits that starts at position i:
      what a greedy \d* consumes there. */
  function DigitRun(s: string, i: nat): (n: nat)
    requires i <= |s|
    ensures i + n <= |s| && DigitsIn(s, i, i + n)
    ensures i + n == |s| || !IsDigit(s[i + n])
    decreases |s| - i
  {
    if i < |s| && IsDigit(s[i]) then 1 + DigitRun(s, i + 1) else 0
  }

  /** W(\d+)X(\d+) matches s[i..i + 2 + a + b], with a digits in the first
      group and b digits in the second. */
  predicate PatternAt(s: string, i: nat, a: nat, b: nat) {
    && 1 <= a && 1 <= b && i + 2 + a + b <= |s|
    && s[i] == 'W' && DigitsIn(s, i + 1, i + 1 + a)
    && s[i + 1 + a] == 'X' && DigitsIn(s, i + 2 + a, i + 2 + a + b)
  }

  /** The second group of a match cannot be extended by a further digit. */
  predicate MaximalAt(s: string, i: nat, a: nat, b: nat)
    requires PatternAt(s, i, a, b)
  {
    i + 2 + a + b == |s| || !IsDigit(s[i + 2 + a + b])
  }

  /** A match object: where the match starts and how many digits each of
      its two groups holds. */
  datatype Match = Match(start: nat, a: nat, b: nat)

  /** The most digits CPython's int() and str() convert between text and
      integers: sys.int_info.default_max_str_digits. A longer digit string
      makes int() raise ValueError. */
  const MaxStrDigits: nat := 4300

  /** The two groups of a match, converted with int(). */
  function Groups(s: string, i: nat, a: nat, b: nat): (nat, nat)
    requires PatternAt(s, i, a, b)
  {
    var depth := s[i + 1..i + 1 + a];
    var weight := s[i + 2 + a..i + 2 + a + b];
    assert forall k :: 0 <= k < a ==> depth[k] == s[i + 1 + k];
    assert forall k :: 0 <= k < b ==> weight[k] == s[i + 2 + a + k];
    (DecimalValue(depth), DecimalValue(weight))
  }

  /** s contains a substring of the form 'W', digits, 'X', digits. */
  ghost predicate ContainsPattern(s: string) {
    exists i, a, b :: PatternAt(s, i, a, b)
  }

  /** The match re.search reports when it scans from position lo: it starts
      at i, no earlier start from lo on admits a match, and its second group
      is greedy (the first group always ends at the 'X'). */
  ghost predicate LeftmostMaximal(s: string, lo: nat, i: nat, a: nat, b: nat) {
    && lo <= i && PatternAt(s, i, a, b) && MaximalAt(s, i, a, b)
    && forall j, a2, b2 :: lo <= j < i ==> !PatternAt(s, j, a2, b2)
  }

  /** One attempt of the regular-expression engine at start position i: a
      match found there is a greedy match of the pattern at i. */
  function MatchAt(s: string, i: nat): (r: Option<Match>)
    requires i <= |s|
    ensures r.Some? ==> r.value.start == i && PatternAt(s, i, r.value.a, r.value.b) && MaximalAt(s, i, r.value.a, r.value.b)
  {
    if i < |s| && s[i] == 'W' then
      var a := DigitRun(s, i + 1);
      if 1 <= a && i + 1 + a < |s| && s[i + 1 + a] == 'X' then
        var b := DigitRun(s, i + 2 + a);
        if 1 <= b then Some(Match(i, a, b)) else None
      else None
    else None
  }

  /** re.search(r'W(\d+)X(\d+)', s[lo..]): try every start position in turn. */
  function SearchFrom(s: string, lo: nat): (r: Option<Match>)
    requires lo <= |s|
    ensures r.Some? ==>
      (lo <= r.value.start && PatternAt(s, r.value.start, r.value.a, r.value.b)
       && MaximalAt(s, r.value.start, r.value.a, r.value.b))
    decreases |s| - lo
  {
    if lo == |s| then None
    else match MatchAt(s, lo)
      case Some(m) => Some(m)
      case None => SearchFrom(s, lo + 1)
  }

  function SearchPattern(s: string): Option<Match> {
    SearchFrom(s, 0)
  }

  lemma MatchAtComplete(s: string, i: nat, a: nat, b: nat)
    requires PatternAt(s, i, a, b)
    ensures MatchAt(s, i).Some?
  {
  }

  lemma MatchAtMaximal(s: string, i: nat, a: nat, b: nat)
    requires PatternAt(s, i, a, b) && MaximalAt(s, i, a, b)
    ensures MatchAt(s, i) == Some(Match(i, a, b))
  {
  }

  lemma NoMatchNoPattern(s: string, i: nat)
    requires i <= |s|
    ensures MatchAt(s, i).None? ==> forall a, b :: !PatternAt(s, i, a, b)
  {
  }

  /** Whatever the scan returns is the leftmost, greedy match. */
  lemma {:induction false} SearchFromSound(s: string, lo: nat)
    requires lo <= |s| && SearchFrom(s, lo).Some?
    ensures var m := SearchFrom(s, lo).value; LeftmostMaximal(s, lo, m.start, m.a, m.b)
    decreases |s| - lo
  {
    if MatchAt(s, lo).None? {
      SearchFromSound(s, lo + 1);
      NoMatchNoPattern(s, lo);
    }
  }

  /** The scan finds a match whenever the pattern occurs from lo on. */
  lemma {:induction false} SearchFromComplete(s: string, lo: nat, j: nat, a: nat, b: nat)
    requires lo <= j && PatternAt(s, j, a, b)
    ensures SearchFrom(s, lo).Some?
    decreases j - lo
  {
    if lo == j {
      MatchAtComplete(s, j, a, b);
    } else if MatchAt(s, lo).None? {
      SearchFromComplete(s, lo + 1, j, a, b);
    }
  }

  /** The scan reports exactly the leftmost greedy match. */
  lemma {:induction false} SearchFromFinds(s: string, lo: nat, i: nat, a: nat, b: nat)
    requires LeftmostMaximal(s, lo, i, a, b)
    ensures SearchFrom(s, lo) == Some(Match(i, a, b))
    decreases i - lo
  {
    if lo == i {
      MatchAtMaximal(s, i, a, b);
    } else {
      assert MatchAt(s, lo).None?;
      SearchFromFinds(s, lo + 1, i, a, b);
    }
  }

  /** A match that starts inside pre and is followed by a 'W' lies inside pre. */
  lemma PatternInPrefix(pre: string, rest: string, j: nat, a: nat, b: nat)
    requires |rest| > 0 && rest[0] == 'W'
    requires j < |pre| && PatternAt(pre + rest, j, a, b)
    ensures PatternAt(pre, j, a, b)
  {
    var s := pre + rest;
    assert s[|pre|] == 'W';
    assert j + 2 + a + b <= |pre|;
    assert forall k :: 0 <= k < |pre| ==> s[k] == pre[k];
  }

  /** Prefixing a string moves every match along without changing it. */
  lemma PatternShift(pre: string, rest: string, j: nat, a: nat, b: nat)
    requires PatternAt(rest, j, a, b)
    ensures PatternAt(pre + rest, |pre| + j, a, b)
    ensures Groups(pre + rest, |pre| + j, a, b) == Groups(rest, j, a, b)
    ensures MaximalAt(rest, j, a, b) ==> MaximalAt(pre + rest, |pre| + j, a, b)
  {
    var s, i := pre + rest, |pre| + j;
    assert forall k :: 0 <= k < |rest| ==> s[|pre| + k] == rest[k];
    assert s[i + 1..i + 1 + a] == rest[j + 1..j + 1 + a];
    assert s[i + 2 + a..i + 2 + a + b] == rest[j + 2 + a..j + 2 + a + b];
  }

  /** The name "W" + d + "X" + w + post, laid out position by position. */
  lemma NameLayout(d: string, w: string, post: string)
    ensures var s := "W" + d + "X" + w + post;
      && |s| == 2 + |d| + |w| + |post| && s[0] == 'W' && s[1 + |d|] == 'X'
      && s[1..1 + |d|] == d && s[2 + |d|..2 + |d| + |w|] == w
      && s[2 + |d| + |w|..] == post
  {
  }

  /** "W" + d + "X" + w, for two non-empty digit strings d and w, followed by
      anything that does not continue the weight digits, is a greedy match
      at its start whose groups hold d and w. */
  lemma DigitsNameMatches(d: string, w: string, post: string)
    requires |d| >= 1 && AllDigits(d) && |w| >= 1 && AllDigits(w)
    requires post == [] || !IsDigit(post[0])
    ensures var s := "W" + d + "X" + w + post;
      PatternAt(s, 0, |d|, |w|) && MaximalAt(s, 0, |d|, |w|) && Groups(s, 0, |d|, |w|) == (DecimalValue(d), DecimalValue(w))
  {
    var s := "W" + d + "X" + w + post;
    var a, b := |d|, |w|;
    NameLayout(d, w, post);
    assert forall k :: 1 <= k < 1 + a ==> s[k] == s[1..1 + a][k - 1];
    assert forall k :: 2 + a <= k < 2 + a + b ==> s[k] == s[2 + a..2 + a + b][k - 2 - a];
    assert PatternAt(s, 0, a, b);
    assert 2 + a + b < |s| ==> s[2 + a + b] == post[0];
  }

  /** "W" + str(depth) + "X" + str(weight), followed by anything that does
      not continue the weight digits, matches at its start with those groups. */
  lemma SizeNameMatches(depth: nat, weight: nat, post: string)
    requires post == [] || !IsDigit(post[0])
    ensures var d, w := DecimalString(depth), DecimalString(weight);
      var s := "W" + d + "X" + w + post;
      PatternAt(s, 0, |d|, |w|) && MaximalAt(s, 0, |d|, |w|) && Groups(s, 0, |d|, |w|) == (depth, weight)
  {
    DigitsNameMatches(DecimalString(depth), DecimalString(weight), post);
    DecimalStringValue(depth);
    DecimalStringValue(weight);
  }

  lemma Reassociate(pre: string, d: string, w: string, post: string)
    ensures pre + "W" + d + "X" + w + post == pre + ("W" + d + "X" + w + post)
  {
  }

  /** A string that matches at its start, behind text holding no match, is
      found at the boundary. */
  lemma MatchBehindPrefix(pre: string, rest: string, a: nat, b: nat)
    requires !ContainsPattern(pre)
    requires PatternAt(rest, 0, a, b) && MaximalAt(rest, 0, a, b)
    ensures SearchPattern(pre + rest) == Some(Match(|pre|, a, b))
    ensures PatternAt(pre + rest, |pre|, a, b) && Groups(pre + rest, |pre|, a, b) == Groups(rest, 0, a, b)
  {
    var s := pre + rest;
    PatternShift(pre, rest, 0, a, b);
    forall j, a2, b2 | 0 <= j < |pre| && PatternAt(s, j, a2, b2) ensures PatternAt(pre, j, a2, b2) {
      PatternInPrefix(pre, rest, j, a2, b2);
    }
    assert LeftmostMaximal(s, 0, |pre|, a, b);
    SearchFromFinds(s, 0, |pre|, a, b);
  }

  /** A size name embedded between junk that holds no match and junk that
      does not continue the weight digits is found with its own depth and
      weight. */
  lemma EmbeddedSizeName(pre: string, depth: nat, weight: nat, post: string)
    requires !ContainsPattern(pre)
    requires post == [] || !IsDigit(post[0])
    ensures var d, w := DecimalString(depth), DecimalString(weight);
      var s := pre + "W" + d + "X" + w + post;
      SearchPattern(s) == Some(Match(|pre|, |d|, |w|))
      && PatternAt(s, |pre|, |d|, |w|) && Groups(s, |pre|, |d|, |w|) == (depth, weight)
  {
    var d, w := DecimalString(depth), DecimalString(weight);
    Reassociate(pre, d, w, post);
    SizeNameMatches(depth, weight, post);
    MatchBehindPrefix(pre, "W" + d + "X" + w + post, |d|, |w|);
  }
}
