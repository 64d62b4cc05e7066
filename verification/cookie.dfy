/** The CSRF cookie reader `getCookie(name)` of static/main.js.

    The browser's `document.cookie` string is an explicit argument, and
    `decodeURIComponent` is the parameter `decode`, a total function whose
    internals are not modelled. */
module Cookie {
  import opened Wrappers

  /** The separator `getCookie` splits the cookie string on. */
  const Separator: char := ';'

  // ---------------------------------------------------------------------
  // String.prototype.trim
  // ---------------------------------------------------------------------

  /** The code points `trim` removes: ECMAScript's WhiteSpace production
      (tab, vertical tab, form feed, ZERO WIDTH NO-BREAK SPACE and every
      space separator) and its LineTerminator production. */
  predicate IsWhitespace(c: char) {
    || c == '\t' || c == '\n' || c == '\U{B}' || c == '\U{C}' || c == '\r'
    || c == ' ' || c == '\U{A0}' || c == '\U{1680}'
    || ('\U{2000}' <= c <= '\U{200A}')
    || c == '\U{2028}' || c == '\U{2029}' || c == '\U{202F}' || c == '\U{205F}'
    || c == '\U{3000}' || c == '\U{FEFF}'
  }

  predicate AllWhitespace(s: string) {
    forall i :: 0 <= i < |s| ==> IsWhitespace(s[i])
  }

  /** Drops the leading whitespace of `s`. */
  function TrimStart(s: string): (r: string)
    ensures |r| <= |s|
    ensures r == [] || !IsWhitespace(r[0])
  {
    if |s| > 0 && IsWhitespace(s[0]) then TrimStart(s[1..]) else s
  }

  /** Drops the trailing whitespace of `s`. */
  function TrimEnd(s: string): (r: string)
    ensures |r| <= |s| && r == s[..|r|]
    ensures r == [] || !IsWhitespace(r[|r| - 1])
  {
    if |s| > 0 && IsWhitespace(s[|s| - 1]) then TrimEnd(s[..|s| - 1]) else s
  }

  /** `s.trim()`: `s` with whitespace stripped from both ends. The result
      begins and ends with a non-whitespace character; `TrimIsUnique` shows
      it is the one such slice of `s` with only whitespace around it. */
  function Trim(s: string): (r: string)
    ensures |r| <= |s|
    ensures r == [] || (!IsWhitespace(r[0]) && !IsWhitespace(r[|r| - 1]))
  {
    TrimEnd(TrimStart(s))
  }

  lemma {:induction false} TrimStartSkips(s: string, i: nat)
    requires i <= |s| && AllWhitespace(s[..i])
    requires i == |s| || !IsWhitespace(s[i])
    ensures TrimStart(s) == s[i..]
    decreases i
  {
    if i > 0 {
      assert IsWhitespace(s[..i][0]);
      assert s[1..][..i - 1] == s[..i][1..];
      TrimStartSkips(s[1..], i - 1);
    }
  }

  lemma {:induction false} TrimEndSkips(s: string, i: nat, j: nat, e: nat)
    requires i <= j <= e <= |s| && AllWhitespace(s[j..e])
    requires j == i || !IsWhitespace(s[j - 1])
    ensures TrimEnd(s[i..e]) == s[i..j]
    decreases e - j
  {
    if j < e {
      assert s[i..e][e - i - 1] == s[j..e][e - 1 - j];
      assert s[i..e][..e - i - 1] == s[i..e - 1];
      assert s[j..e - 1] == s[j..e][..e - 1 - j];
      TrimEndSkips(s, i, j, e - 1);
    }
  }

  /** Any slice `s[i..j]` with only whitespace before and after it, and
      which is empty or starts and ends with non-whitespace, is `Trim(s)`. */
  lemma TrimIsUnique(s: string, i: nat, j: nat)
    requires i <= j <= |s|
    requires AllWhitespace(s[..i]) && AllWhitespace(s[j..])
    requires i == j || (!IsWhitespace(s[i]) && !IsWhitespace(s[j - 1]))
    ensures Trim(s) == s[i..j]
  {
    if i == j {
      WhitespaceTrimsToEmpty(s, i);
    } else {
      TrimStartSkips(s, i);
      assert s[i..] == s[i..|s|];
      TrimEndSkips(s, i, j, |s|);
    }
  }

  lemma WhitespaceTrimsToEmpty(s: string, i: nat)
    requires i <= |s| && AllWhitespace(s[..i]) && AllWhitespace(s[i..])
    ensures Trim(s) == []
  {
    forall k | 0 <= k < |s| ensures IsWhitespace(s[k]) {
      if k < i { assert s[k] == s[..i][k]; } else { assert s[k] == s[i..][k - i]; }
    }
    assert s[..|s|] == s;
    TrimStartSkips(s, |s|);
  }

  lemma {:induction false} TrimStartDrops(s: string)
    ensures var k := |s| - |TrimStart(s)|;
            TrimStart(s) == s[k..] && AllWhitespace(s[..k])
    decreases |s|
  {
    if |s| > 0 && IsWhitespace(s[0]) {
      TrimStartDrops(s[1..]);
      var k := |s| - |TrimStart(s)|;
      assert s[..k] == [s[0]] + s[1..][..k - 1];
    }
  }

  lemma {:induction false} TrimEndDrops(s: string)
    ensures AllWhitespace(s[|TrimEnd(s)|..])
    decreases |s|
  {
    if |s| > 0 && IsWhitespace(s[|s| - 1]) {
      var p := s[..|s| - 1];
      TrimEndDrops(p);
      var k := |TrimEnd(s)|;
      assert s[k..] == p[k..] + [s[|s| - 1]];
    }
  }

  /** `Trim(s)` is a slice of `s` with only whitespace cut off around it. */
  lemma TrimBounds(s: string) returns (i: nat, j: nat)
    ensures i <= j <= |s| && Trim(s) == s[i..j]
    ensures AllWhitespace(s[..i]) && AllWhitespace(s[j..])
    ensures i == j || (!IsWhitespace(s[i]) && !IsWhitespace(s[j - 1]))
  {
    var t := TrimStart(s);
    TrimStartDrops(s);
    TrimEndDrops(t);
    i := |s| - |t|;
    j := i + |Trim(s)|;
    assert t[|Trim(s)|..] == s[j..];
  }

  /** Appending whitespace never changes the trimmed string. */
  lemma TrimIgnoresTrailingWhitespace(s: string, w: string)
    requires AllWhitespace(w)
    ensures Trim(s + w) == Trim(s)
  {
    var i, j := TrimBounds(s);
    var sw := s + w;
    assert sw[..i] == s[..i];
    forall k | 0 <= k < |sw| - j ensures IsWhitespace(sw[j..][k]) {
      if j + k < |s| { assert sw[j..][k] == s[j..][k]; } else { assert sw[j..][k] == w[j + k - |s|]; }
    }
    assert sw[i..j] == s[i..j];
    TrimIsUnique(sw, i, j);
  }

  // ---------------------------------------------------------------------
  // String.prototype.split with a one-character separator
  // ---------------------------------------------------------------------

  /** The position of the first `c` in `s`, or `|s|` when there is none. */
  function IndexOf(s: string, c: char): (i: nat)
    ensures i <= |s| && c !in s[..i]
    ensures i < |s| ==> s[i] == c
  {
    if |s| == 0 || s[0] == c then 0
    else
      var i := 1 + IndexOf(s[1..], c);
      assert s[..i] == [s[0]] + s[1..][..i - 1];
      i
  }

  /** `s.split(sep)`: the pieces of `s` between occurrences of `sep`, in
      order. There is always at least one piece (the empty string gives
      `[""]`); `JoinSplit`, `SplitJoin` and `SplitPiecesAvoidSeparator`
      show these are exactly the pieces between separators. */
  function Split(s: string, sep: char): (r: seq<string>)
    ensures |r| >= 1
    decreases |s|
  {
    var i := IndexOf(s, sep);
    if i == |s| then [s] else [s[..i]] + Split(s[i + 1..], sep)
  }

  /** Glues pieces back together with `sep` between neighbours; the
      inverse of `Split`. */
  function Join(parts: seq<string>, sep: char): string {
    if |parts| == 0 then ""
    else if |parts| == 1 then parts[0]
    else parts[0] + [sep] + Join(parts[1..], sep)
  }

  /** No piece of a split contains the separator. */
  lemma {:induction false} SplitPiecesAvoidSeparator(s: string, sep: char)
    ensures forall k :: 0 <= k < |Split(s, sep)| ==> sep !in Split(s, sep)[k]
    decreases |s|
  {
    var i := IndexOf(s, sep);
    if i < |s| {
      SplitPiecesAvoidSeparator(s[i + 1..], sep);
      var r := Split(s, sep);
      assert r == [s[..i]] + Split(s[i + 1..], sep);
    }
  }

  /** A string without the separator splits into itself alone. */
  lemma SplitWithoutSeparator(s: string, sep: char)
    requires sep !in s
    ensures Split(s, sep) == [s]
  {
  }

  /** Cutting `a` around position `i`, with `b` appended. */
  lemma CutAt(a: string, i: nat, b: string)
    requires i < |a|
    ensures a == a[..i] + [a[i]] + a[i + 1..]
    ensures a + b == a[..i] + [a[i]] + (a[i + 1..] + b)
  {
  }

  /** Cutting `a` around a separator at `i`, with `sep + b` appended. */
  lemma CutAtSeparator(a: string, i: nat, b: string, sep: char)
    requires i < |a| && a[i] == sep
    ensures a + [sep] + b == a[..i] + [sep] + (a[i + 1..] + [sep] + b)
  {
  }

  /** A separator-free first piece is split off whole. */
  lemma SplitFirstPiece(a: string, b: string, sep: char)
    requires sep !in a
    ensures Split(a + [sep] + b, sep) == [a] + Split(b, sep)
  {
    var s := a + [sep] + b;
    var i := IndexOf(s, sep);
    assert s[|a|] == sep;
    assert forall k :: 0 <= k < |a| ==> s[k] == a[k];
    assert i == |a|;
    assert s[..i] == a && s[i + 1..] == b;
  }

  /** Putting a piece in front of two concatenated lists. */
  lemma PrependAssociates(x: string, p: seq<string>, q: seq<string>)
    ensures [x] + (p + q) == ([x] + p) + q
  {
  }

  /** Splitting `a + sep + b` splits `a` and `b` independently. */
  lemma {:induction false} SplitAtSeparator(a: string, b: string, sep: char)
    ensures Split(a + [sep] + b, sep) == Split(a, sep) + Split(b, sep)
    decreases |a|
  {
    var i := IndexOf(a, sep);
    if i == |a| {
      SplitFirstPiece(a, b, sep);
    } else {
      var head, tail := a[..i], a[i + 1..];
      CutAtSeparator(a, i, b, sep);
      SplitFirstPiece(head, tail + [sep] + b, sep);
      SplitAtSeparator(tail, b, sep);
      var p, q := Split(tail, sep), Split(b, sep);
      assert Split(a + [sep] + b, sep) == [head] + (p + q);
      assert Split(a, sep) == [head] + p;
      PrependAssociates(head, p, q);
    }
  }

  /** Joining the pieces of a split gives back the original string. */
  lemma {:induction false} JoinSplit(s: string, sep: char)
    ensures Join(Split(s, sep), sep) == s
    decreases |s|
  {
    var i := IndexOf(s, sep);
    if i < |s| {
      var rest := Split(s[i + 1..], sep);
      JoinSplit(s[i + 1..], sep);
      assert ([s[..i]] + rest)[1..] == rest;
      assert s == s[..i] + [sep] + s[i + 1..];
    }
  }

  /** Splitting the pieces' join gives the pieces back, when no piece
      contains the separator: `Split` and `Join` are mutually inverse. */
  lemma {:induction false} SplitJoin(parts: seq<string>, sep: char)
    requires |parts| >= 1
    requires forall k :: 0 <= k < |parts| ==> sep !in parts[k]
    ensures Split(Join(parts, sep), sep) == parts
    decreases |parts|
  {
    if |parts| == 1 {
      SplitWithoutSeparator(parts[0], sep);
    } else {
      SplitJoin(parts[1..], sep);
      SplitFirstPiece(parts[0], Join(parts[1..], sep), sep);
      assert [parts[0]] + parts[1..] == parts;
    }
  }

  /** `parts` with `w` appended to its last element. */
  function ExtendLast(parts: seq<string>, w: string): (r: seq<string>)
    requires |parts| >= 1
    ensures |r| == |parts| && r[|r| - 1] == parts[|parts| - 1] + w
    ensures r[..|r| - 1] == parts[..|parts| - 1]
  {
    parts[..|parts| - 1] + [parts[|parts| - 1] + w]
  }

  /** Extending the last piece commutes with putting a piece in front. */
  lemma ExtendLastBehindHead(head: string, q: seq<string>, w: string)
    requires |q| >= 1
    ensures ExtendLast([head] + q, w) == [head] + ExtendLast(q, w)
  {
  }

  /** Appending separator-free text extends the last piece only. */
  lemma {:induction false} SplitExtendsLast(s: string, w: string, sep: char)
    requires sep !in w
    ensures Split(s + w, sep) == ExtendLast(Split(s, sep), w)
    decreases |s|
  {
    var i := IndexOf(s, sep);
    if i == |s| {
      assert sep !in s + w;
      SplitWithoutSeparator(s, sep);
      SplitWithoutSeparator(s + w, sep);
    } else {
      var head, tail := s[..i], s[i + 1..];
      CutAt(s, i, w);
      SplitFirstPiece(head, tail + w, sep);
      SplitFirstPiece(head, tail, sep);
      SplitExtendsLast(tail, w, sep);
      ExtendLastBehindHead(head, Split(tail, sep), w);
    }
  }

  // ---------------------------------------------------------------------
  // String.prototype.substring
  // ---------------------------------------------------------------------

  function Clamp(i: int, n: nat): (r: nat)
    ensures r <= n
    ensures 0 <= i <= n ==> r == i
  {
    if i < 0 then 0 else if i > n then n else i
  }

  /** `s.substring(start, end)`: both ends are clamped into `[0, |s|]` and
      swapped when out of order, so it never fails. */
  function Substring(s: string, start: int, end: int): (r: string)
    ensures 0 <= start <= end <= |s| ==> r == s[start..end]
    ensures 0 <= start <= |s| <= end ==> r == s[start..]
  {
    var a := Clamp(start, |s|);
    var b := Clamp(end, |s|);
    if a <= b then s[a..b] else s[b..a]
  }

  // ---------------------------------------------------------------------
  // getCookie
  // ---------------------------------------------------------------------

  /** The test of main.js line 9: the first `|name| + 1` characters of the
      trimmed segment are `name` followed by `=`. A segment that is exactly
      `name` (no `=`), or whose name merely starts with `name`, fails. */
  function Matches(cookie: string, name: string): (b: bool)
    ensures b <==> |name| < |cookie| && cookie[..|name|] == name && cookie[|name|] == '='
  {
    var prefix := Substring(cookie, 0, |name| + 1);
    assert |cookie| > |name| ==> prefix == cookie[..|name| + 1];
    assert |cookie| > |name| && prefix == name + "=" ==> prefix[..|name|] == cookie[..|name|];
    prefix == name + "="
  }

  /** The raw (undecoded) value of a matching segment: everything after the
      first `name=`, further `=` characters included. */
  function RawValue(cookie: string, name: string): (v: string)
    requires Matches(cookie, name)
    ensures cookie == name + "=" + v
  {
    var v := Substring(cookie, |name| + 1, |cookie|);
    assert cookie == cookie[..|name|] + [cookie[|name|]] + cookie[|name| + 1..];
    v
  }

  /** Writing a cookie as `name=value` and reading it back gives `value`. */
  lemma RawValueOfPair(name: string, value: string)
    ensures Matches(name + "=" + value, name)
    ensures RawValue(name + "=" + value, name) == value
  {
  }

  /** The loop of main.js lines 6-13 over the segments still to inspect:
      the decoded value of the first segment whose trimmed form matches. */
  function FirstMatch(segments: seq<string>, name: string, decode: string -> string): Option<string>
  {
    if |segments| == 0 then None
    else
      var cookie := Trim(segments[0]);
      if Matches(cookie, name) then Some(decode(RawValue(cookie, name)))
      else FirstMatch(segments[1..], name, decode)
  }

  /** `getCookie(name)` applied to the cookie string `cookies`. */
  function GetCookie(cookies: string, name: string, decode: string -> string): (r: Option<string>)
    ensures cookies == "" ==> r == None
  {
    if cookies == "" then None
    else FirstMatch(Split(cookies, Separator), name, decode)
  }

  /** Segment `i` is the leftmost segment whose trimmed form matches. */
  ghost predicate IsFirstMatchAt(segments: seq<string>, name: string, i: nat)
    requires i < |segments|
  {
    && Matches(Trim(segments[i]), name)
    && forall j :: 0 <= j < i ==> !Matches(Trim(segments[j]), name)
  }

  /** Declarative statement of a left-to-right search over `segments`:
      null exactly when no trimmed segment matches, otherwise the decoded
      raw value of the leftmost matching segment. */
  ghost predicate IsFirstMatchResult(segments: seq<string>, name: string, decode: string -> string, r: Option<string>) {
    match r
    case None => forall i :: 0 <= i < |segments| ==> !Matches(Trim(segments[i]), name)
    case Some(v) =>
      exists i :: 0 <= i < |segments| && IsFirstMatchAt(segments, name, i)
                  && v == decode(RawValue(Trim(segments[i]), name))
  }

  /** What `getCookie` returns, stated without the loop. */
  ghost predicate IsLookup(cookies: string, name: string, decode: string -> string, r: Option<string>) {
    IsFirstMatchResult(Split(cookies, Separator), name, decode, r)
  }

  lemma {:induction false} FirstMatchMeetsSpec(segments: seq<string>, name: string, decode: string -> string)
    ensures IsFirstMatchResult(segments, name, decode, FirstMatch(segments, name, decode))
    decreases |segments|
  {
    if |segments| > 0 && !Matches(Trim(segments[0]), name) {
      var rest := segments[1..];
      FirstMatchMeetsSpec(rest, name, decode);
      match FirstMatch(rest, name, decode)
      case None =>
        forall i | 0 <= i < |segments| ensures !Matches(Trim(segments[i]), name) {
          if i > 0 { assert segments[i] == rest[i - 1]; }
        }
      case Some(v) =>
        var i :| 0 <= i < |rest| && IsFirstMatchAt(rest, name, i)
                 && v == decode(RawValue(Trim(rest[i]), name));
        forall j | 0 <= j < i + 1 ensures !Matches(Trim(segments[j]), name) {
          if j > 0 { assert segments[j] == rest[j - 1]; }
        }
        assert IsFirstMatchAt(segments, name, i + 1);
    } else if |segments| > 0 {
      assert IsFirstMatchAt(segments, name, 0);
    }
  }

  /** The declarative statement pins down a single result. */
  lemma FirstMatchResultUnique(segments: seq<string>, name: string, decode: string -> string,
                               r1: Option<string>, r2: Option<string>)
    requires IsFirstMatchResult(segments, name, decode, r1)
    requires IsFirstMatchResult(segments, name, decode, r2)
    ensures r1 == r2
  {
  }

  /** `GetCookie` returns exactly what the declarative statement allows,
      the empty cookie string included. */
  lemma GetCookieIsLookup(cookies: string, name: string, decode: string -> string, r: Option<string>)
    ensures IsLookup(cookies, name, decode, r) <==> r == GetCookie(cookies, name, decode)
  {
    var segments := Split(cookies, Separator);
    FirstMatchMeetsSpec(segments, name, decode);
    if cookies == "" {
      assert segments == [""];
      assert !Matches(Trim(""), name);
    }
    if IsLookup(cookies, name, decode, r) {
      FirstMatchResultUnique(segments, name, decode, r, GetCookie(cookies, name, decode));
    }
  }

  /** No trimmed segment of the cookie string is `name=...`. */
  ghost predicate NoSegmentMatches(cookies: string, name: string) {
    var segments := Split(cookies, Separator);
    forall i :: 0 <= i < |segments| ==> !Matches(Trim(segments[i]), name)
  }

  /** `getCookie` returns null exactly when no trimmed segment is `name=...`. */
  lemma NullIffNoSegmentMatches(cookies: string, name: string, decode: string -> string)
    ensures GetCookie(cookies, name, decode) == None <==> NoSegmentMatches(cookies, name)
  {
    var r := GetCookie(cookies, name, decode);
    var segments := Split(cookies, Separator);
    GetCookieIsLookup(cookies, name, decode, r);
    if r.Some? {
      var i :| 0 <= i < |segments| && IsFirstMatchAt(segments, name, i)
               && r.value == decode(RawValue(Trim(segments[i]), name));
      assert Matches(Trim(segments[i]), name);
    }
  }

  lemma {:induction false} FirstMatchAppend(a: seq<string>, b: seq<string>, name: string, decode: string -> string)
    ensures FirstMatch(a + b, name, decode)
         == if FirstMatch(a, name, decode).Some? then FirstMatch(a, name, decode) else FirstMatch(b, name, decode)
    decreases |a|
  {
    if |a| == 0 {
      assert a + b == b;
    } else {
      assert (a + b)[0] == a[0] && (a + b)[1..] == a[1..] + b;
      FirstMatchAppend(a[1..], b, name, decode);
    }
  }

  /** Once a cookie string yields a value, cookies appended after it never
      change the result: the leftmost match wins. */
  lemma LeftmostMatchWins(cookies: string, later: string, name: string, decode: string -> string)
    requires GetCookie(cookies, name, decode).Some?
    ensures GetCookie(cookies + [Separator] + later, name, decode) == GetCookie(cookies, name, decode)
  {
    SplitAtSeparator(cookies, later, Separator);
    FirstMatchAppend(Split(cookies, Separator), Split(later, Separator), name, decode);
  }

  /** A leading cookie that does not match is skipped over. */
  lemma NonMatchingCookieSkipped(first: string, rest: string, name: string, decode: string -> string)
    requires Separator !in first && !Matches(Trim(first), name)
    ensures GetCookie(first + [Separator] + rest, name, decode) == GetCookie(rest, name, decode)
  {
    SplitAtSeparator(first, rest, Separator);
    SplitWithoutSeparator(first, Separator);
    FirstMatchAppend([first], Split(rest, Separator), name, decode);
    if rest == "" {
      assert Split(rest, Separator) == [""];
      assert !Matches(Trim(""), name);
    }
  }

  /** A cookie string made of whitespace only holds no cookie. */
  lemma WhitespaceOnlyIsNull(w: string, name: string, decode: string -> string)
    requires AllWhitespace(w)
    ensures GetCookie(w, name, decode) == None
  {
    if w != "" {
      assert Separator !in w;
      SplitWithoutSeparator(w, Separator);
      assert w[..0] == [] && w[0..] == w;
      WhitespaceTrimsToEmpty(w, 0);
      assert !Matches(Trim(w), name);
      assert [w][1..] == [];
      assert GetCookie(w, name, decode) == FirstMatch([w], name, decode);
    }
  }

  /** Whitespace added to the last segment does not change the search. */
  lemma FirstMatchIgnoresTrailingWhitespace(segments: seq<string>, w: string, name: string, decode: string -> string)
    requires |segments| >= 1 && AllWhitespace(w)
    ensures FirstMatch(ExtendLast(segments, w), name, decode) == FirstMatch(segments, name, decode)
  {
    var n := |segments|;
    var init, last := segments[..n - 1], segments[n - 1];
    TrimIgnoresTrailingWhitespace(last, w);
    assert [last + w][1..] == [] && [last][1..] == [];
    FirstMatchAppend(init, [last + w], name, decode);
    FirstMatchAppend(init, [last], name, decode);
    assert init + [last] == segments;
    assert ExtendLast(segments, w) == init + [last + w];
  }

  /** Trailing whitespace on the cookie string never changes the result;
      in particular a value never keeps whitespace from the end of its
      segment. */
  lemma TrailingWhitespaceIgnored(cookies: string, w: string, name: string, decode: string -> string)
    requires AllWhitespace(w)
    ensures GetCookie(cookies + w, name, decode) == GetCookie(cookies, name, decode)
  {
    if cookies == "" {
      assert cookies + w == w;
      WhitespaceOnlyIsNull(w, name, decode);
    } else {
      assert Separator !in w;
      SplitExtendsLast(cookies, w, Separator);
      FirstMatchIgnoresTrailingWhitespace(Split(cookies, Separator), w, name, decode);
    }
  }

  /** Every `Some` result is the decoding of a raw value that does not end
      in whitespace, and that value is what follows `name=` in its
      segment. */
  lemma ValueHasNoTrailingWhitespace(cookies: string, name: string, decode: string -> string)
    requires GetCookie(cookies, name, decode).Some?
    ensures exists segment :: segment in Split(cookies, Separator)
              && Matches(Trim(segment), name)
              && GetCookie(cookies, name, decode).value == decode(RawValue(Trim(segment), name))
              && (RawValue(Trim(segment), name) == [] || !IsWhitespace(Trim(segment)[|Trim(segment)| - 1]))
  {
    var segments := Split(cookies, Separator);
    GetCookieIsLookup(cookies, name, decode, GetCookie(cookies, name, decode));
    var i :| 0 <= i < |segments| && IsFirstMatchAt(segments, name, i)
             && GetCookie(cookies, name, decode).value == decode(RawValue(Trim(segments[i]), name));
    assert segments[i] in segments;
  }

  /** A cookie string without separators is looked up as its trimmed
      form `cookie[i..j]`. */
  lemma SingleCookie(cookie: string, i: nat, j: nat, name: string, decode: string -> string)
    requires Separator !in cookie && i < j <= |cookie|
    requires AllWhitespace(cookie[..i]) && AllWhitespace(cookie[j..])
    requires !IsWhitespace(cookie[i]) && !IsWhitespace(cookie[j - 1])
    ensures GetCookie(cookie, name, decode)
         == if Matches(cookie[i..j], name) then Some(decode(RawValue(cookie[i..j], name))) else None
  {
    SplitWithoutSeparator(cookie, Separator);
    TrimIsUnique(cookie, i, j);
    assert [cookie][1..] == [];
    assert GetCookie(cookie, name, decode) == FirstMatch([cookie], name, decode);
  }

  /** The name must be followed directly by `=`: a bare `csrftoken` is
      not found. */
  lemma ExampleBareNameNotFound(decode: string -> string)
    ensures GetCookie("csrftoken", "csrftoken", decode) == None
  {
    SingleCookie("csrftoken", 0, 9, "csrftoken", decode);
    assert "csrftoken"[0..9] == "csrftoken";
  }

  /** A cookie whose name only starts with `csrftoken` is not found. */
  lemma ExampleLongerNameNotFound(decode: string -> string)
    ensures GetCookie("csrftokenX=1", "csrftoken", decode) == None
  {
    var c := "csrftokenX=1";
    assert c[9] == 'X';
    SingleCookie(c, 0, |c|, "csrftoken", decode);
    assert c[0..|c|] == c;
  }

  /** Segments are trimmed before matching, so the token is found after
      another cookie and the space that follows its separator. */
  lemma ExampleTokenAfterAnotherCookie(decode: string -> string)
    ensures GetCookie("a=1; csrftoken=xyz", "csrftoken", decode) == Some(decode("xyz"))
  {
    var first, rest := "a=1", " csrftoken=xyz";
    assert "a=1; csrftoken=xyz" == first + [Separator] + rest;
    TrimIsUnique(first, 0, |first|);
    assert first[0..|first|] == first;
    NonMatchingCookieSkipped(first, rest, "csrftoken", decode);
    ExampleSpaceBeforeToken(decode);
  }

  lemma ExampleSpaceBeforeToken(decode: string -> string)
    ensures GetCookie(" csrftoken=xyz", "csrftoken", decode) == Some(decode("xyz"))
  {
    assert " csrftoken=xyz" == " " + ("csrftoken" + "=" + "xyz");
    PairAfterSpace("csrftoken", "xyz", decode);
  }

  /** `name=value` preceded by one space is found once trimmed. */
  lemma PairAfterSpace(name: string, value: string, decode: string -> string)
    requires name != [] && value != []
    requires Separator !in name && Separator !in value
    requires !IsWhitespace(name[0]) && !IsWhitespace(value[|value| - 1])
    ensures GetCookie(" " + (name + "=" + value), name, decode) == Some(decode(value))
  {
    var pair := name + "=" + value;
    var c := " " + pair;
    assert c[..1] == " " && c[|c|..] == [] && c[1..|c|] == pair;
    assert c[1] == name[0] && c[|c| - 1] == value[|value| - 1];
    assert Separator !in c;
    RawValueOfPair(name, value);
    SingleCookie(c, 1, |c|, name, decode);
  }

  /** Everything after the first `name=` is the value, later `=` included,
      and whitespace at the end of the cookie string is dropped. */
  lemma ExampleValueAfterFirstEquals(decode: string -> string)
    ensures GetCookie("k=a=b", "k", decode) == Some(decode("a=b"))
    ensures GetCookie("k=a=b  ", "k", decode) == Some(decode("a=b"))
  {
    SingleCookie("k=a=b", 0, 5, "k", decode);
    assert "k=a=b"[0..5] == "k=a=b";
    assert RawValue("k=a=b", "k") == "a=b";
    assert "k=a=b  " == "k=a=b" + "  ";
    TrailingWhitespaceIgnored("k=a=b", "  ", "k", decode);
  }

  /** The loop of main.js lines 3-15, written as in the source: scan the
      segments from the left and stop at the first match. */
  method ReadCookie(cookies: string, name: string, decode: string -> string) returns (r: Option<string>)
    ensures IsLookup(cookies, name, decode, r)
    ensures r == GetCookie(cookies, name, decode)
  {
    r := None;
    var segments := Split(cookies, Separator);
    if cookies != "" {
      var i := 0;
      while i < |segments|
        invariant 0 <= i <= |segments|
        invariant forall j :: 0 <= j < i ==> !Matches(Trim(segments[j]), name)
      {
        var cookie := Trim(segments[i]);
        if Matches(cookie, name) {
          r := Some(decode(RawValue(cookie, name)));
          assert IsFirstMatchAt(segments, name, i);
          assert r.value == decode(RawValue(Trim(segments[i]), name));
          GetCookieIsLookup(cookies, name, decode, r);
          return;
        }
        i := i + 1;
      }
    } else {
      assert segments == [""];
    }
    GetCookieIsLookup(cookies, name, decode, r);
  }
}
