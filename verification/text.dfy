/** String helpers the parser borrows from the C++ standard library and from
    hyprutils (trim, whitespace splitting, replaceInString), stated as small
    total functions over `string`. */
module Text {
  import opened Results

  /** std::isspace in the "C" locale. */
  predicate IsSpace(c: char) {
    c == ' ' || c == '\t' || c == '\n' || c == '\r' || c == '\U{0B}' || c == '\U{0C}'
  }

  predicate NoSpace(s: string) {
    forall i :: 0 <= i < |s| ==> !IsSpace(s[i])
  }

  predicate StartsWith(s: string, p: string) {
    |p| <= |s| && s[..|p|] == p
  }

  predicate EndsWith(s: string, p: string) {
    |p| <= |s| && s[|s| - |p|..] == p
  }

  /** Drops leading whitespace only. */
  function TrimStart(s: string): (r: string)
    ensures |r| <= |s| && r == s[|s| - |r|..]
    ensures |r| > 0 ==> !IsSpace(r[0])
    ensures |s| > 0 && !IsSpace(s[0]) ==> r == s
  {
    if |s| > 0 && IsSpace(s[0]) then TrimStart(s[1..]) else s
  }

  /** TrimStart removes whitespace and nothing else. */
  lemma {:induction false} TrimStartRemovesSpaces(s: string)
    ensures forall i :: 0 <= i < |s| - |TrimStart(s)| ==> IsSpace(s[i])
  {
    if |s| > 0 && IsSpace(s[0]) {
      TrimStartRemovesSpaces(s[1..]);
    }
  }

  /** Drops trailing whitespace only. */
  function TrimEnd(s: string): (r: string)
    ensures |r| <= |s| && r == s[..|r|]
    ensures |r| > 0 ==> !IsSpace(r[|r| - 1])
    ensures |s| > 0 && !IsSpace(s[|s| - 1]) ==> r == s
  {
    if |s| > 0 && IsSpace(s[|s| - 1]) then TrimEnd(s[..|s| - 1]) else s
  }

  /** TrimEnd removes whitespace and nothing else. */
  lemma {:induction false} TrimEndRemovesSpaces(s: string)
    ensures forall i :: |TrimEnd(s)| <= i < |s| ==> IsSpace(s[i])
  {
    if |s| > 0 && IsSpace(s[|s| - 1]) {
      TrimEndRemovesSpaces(s[..|s| - 1]);
    }
  }

  /** hyprutils trim: whitespace removed at both ends, nothing else touched. */
  function Trim(s: string): (r: string)
    ensures |r| <= |TrimStart(s)| <= |s|
    ensures |r| > 0 ==> !IsSpace(r[0]) && !IsSpace(r[|r| - 1])
    ensures r == s[|s| - |TrimStart(s)|..|s| - |TrimStart(s)| + |r|]
  {
    TrimEnd(TrimStart(s))
  }

  lemma TrimKeepsTrimmed(s: string)
    requires |s| == 0 || (!IsSpace(s[0]) && !IsSpace(s[|s| - 1]))
    ensures Trim(s) == s
  {
  }

  lemma TrimIdempotent(s: string)
    ensures Trim(Trim(s)) == Trim(s)
  {
    TrimKeepsTrimmed(Trim(s));
  }

  /** Whether `t` occurs in `s` at index `i`. */
  predicate At(s: string, t: string, i: int) {
    0 <= i && i + |t| <= |s| && s[i..i + |t|] == t
  }

  /** std::string::find(t, from) for a non-empty needle. */
  function FindFrom(s: string, t: string, from: nat): (r: Option<nat>)
    requires |t| > 0
    decreases |s| - from
    ensures r.Some? ==> from <= r.value && At(s, t, r.value)
    ensures r.Some? ==> forall j :: from <= j < r.value ==> !At(s, t, j)
    ensures r.None? ==> forall j :: from <= j ==> !At(s, t, j)
  {
    if from + |t| > |s| then None
    else if s[from..from + |t|] == t then Some(from)
    else FindFrom(s, t, from + 1)
  }

  predicate Contains(s: string, t: string)
    requires |t| > 0
  {
    FindFrom(s, t, 0).Some?
  }

  /** std::string::find(c, from). */
  function FindChar(s: string, c: char, from: nat): (r: Option<nat>)
    decreases |s| - from
    ensures r.Some? ==> from <= r.value < |s| && s[r.value] == c
    ensures r.Some? ==> forall j :: from <= j < r.value ==> s[j] != c
    ensures r.None? ==> forall j :: from <= j < |s| ==> s[j] != c
  {
    if from >= |s| then None
    else if s[from] == c then Some(from)
    else FindChar(s, c, from + 1)
  }

  /** std::string::find_last_of(c). */
  function FindLastChar(s: string, c: char): (r: Option<nat>)
    ensures r.Some? ==> r.value < |s| && s[r.value] == c
    ensures r.Some? ==> forall j :: r.value < j < |s| ==> s[j] != c
    ensures r.None? ==> forall j :: 0 <= j < |s| ==> s[j] != c
  {
    if |s| == 0 then None
    else if s[|s| - 1] == c then Some(|s| - 1)
    else FindLastChar(s[..|s| - 1], c)
  }

  /** Number of occurrences of `c` (std::count). */
  function Count(s: string, c: char): (n: nat)
    ensures n <= |s|
    ensures n == 0 <==> c !in s
  {
    if |s| == 0 then 0 else Count(s[..|s| - 1], c) + (if s[|s| - 1] == c then 1 else 0)
  }

  lemma {:induction false} CountAppend(a: string, b: string, c: char)
    ensures Count(a + b, c) == Count(a, c) + Count(b, c)
    decreases |b|
  {
    if |b| == 0 {
      assert a + b == a;
    } else {
      assert (a + b)[..|a + b| - 1] == a + b[..|b| - 1];
      CountAppend(a, b[..|b| - 1], c);
    }
  }

  /** hyprutils replaceInString: left-to-right, non-overlapping, the search
      resuming after each inserted replacement. */
  function ReplaceAll(s: string, what: string, to: string): (r: string)
    requires |what| > 0
    decreases |s|
  {
    if |s| < |what| then s
    else if s[..|what|] == what then to + ReplaceAll(s[|what|..], what, to)
    else [s[0]] + ReplaceAll(s[1..], what, to)
  }

  lemma {:induction false} ReplaceAllAbsent(s: string, what: string, to: string)
    requires |what| > 0
    requires forall j :: !At(s, what, j)
    ensures ReplaceAll(s, what, to) == s
    decreases |s|
  {
    if |s| < |what| {
    } else {
      assert !At(s, what, 0);
      assert s[0..|what|] == s[..|what|];
      forall j ensures !At(s[1..], what, j) {
        if At(s[1..], what, j) {
          assert s[1..][j..j + |what|] == s[j + 1..j + 1 + |what|];
          assert At(s, what, j + 1);
        }
      }
      ReplaceAllAbsent(s[1..], what, to);
    }
  }

  /** The fields between occurrences of `c`, as repeated find(c) / substr
      produce them: one more field than there are separators. */
  function SplitOn(s: string, c: char): (r: seq<string>)
    ensures |r| > 0
    ensures forall i :: 0 <= i < |r| ==> |r[i]| <= |s| && c !in r[i]
    decreases |s|
  {
    match FindChar(s, c, 0)
    case None => [s]
    case Some(k) => [s[..k]] + SplitOn(s[k + 1..], c)
  }

  /** The fields joined back with `c` between them. */
  function JoinWith(parts: seq<string>, c: char): (r: string)
    requires |parts| > 0
    decreases |parts|
  {
    if |parts| == 1 then parts[0] else parts[0] + [c] + JoinWith(parts[1..], c)
  }

  /** The joined text starts like its first field... */
  lemma JoinWithFirst(parts: seq<string>, c: char)
    requires |parts| > 0 && |parts[0]| > 0
    ensures |JoinWith(parts, c)| > 0 && JoinWith(parts, c)[0] == parts[0][0]
  {
  }

  /** ...and ends like its last. */
  lemma {:induction false} JoinWithLast(parts: seq<string>, c: char)
    requires |parts| > 0 && |parts[|parts| - 1]| > 0
    ensures var r := JoinWith(parts, c);
      |r| > 0 && r[|r| - 1] == parts[|parts| - 1][|parts[|parts| - 1]| - 1]
    decreases |parts|
  {
    if |parts| > 1 {
      assert parts[1..][|parts| - 2] == parts[|parts| - 1];
      JoinWithLast(parts[1..], c);
    }
  }

  lemma {:induction false} SplitOnCount(s: string, c: char)
    ensures |SplitOn(s, c)| == Count(s, c) + 1
    decreases |s|
  {
    match FindChar(s, c, 0)
    case None =>
    case Some(k) =>
      assert s == s[..k] + [c] + s[k + 1..];
      CountAppend(s[..k] + [c], s[k + 1..], c);
      CountAppend(s[..k], [c], c);
      assert c !in s[..k];
      SplitOnCount(s[k + 1..], c);
  }

  /** Splitting then joining gives the text back. */
  lemma {:induction false} JoinSplitOn(s: string, c: char)
    ensures JoinWith(SplitOn(s, c), c) == s
    decreases |s|
  {
    match FindChar(s, c, 0)
    case None =>
    case Some(k) =>
      JoinSplitOn(s[k + 1..], c);
      assert s == s[..k] + [c] + s[k + 1..];
  }

  /** Joining fields free of the separator then splitting gives the fields back. */
  lemma {:induction false} SplitOnJoin(parts: seq<string>, c: char)
    requires |parts| > 0
    requires forall i :: 0 <= i < |parts| ==> c !in parts[i]
    ensures SplitOn(JoinWith(parts, c), c) == parts
    decreases |parts|
  {
    var s := JoinWith(parts, c);
    if |parts| == 1 {
      assert FindChar(s, c, 0).None?;
    } else {
      var k := |parts[0]|;
      assert s == parts[0] + [c] + JoinWith(parts[1..], c);
      assert s[k] == c;
      assert forall j :: 0 <= j < k ==> s[j] == parts[0][j];
      assert FindChar(s, c, 0) == Some(k);
      assert s[..k] == parts[0];
      assert s[k + 1..] == JoinWith(parts[1..], c);
      SplitOnJoin(parts[1..], c);
    }
  }

  /** Length of the leading run of non-whitespace characters. */
  function TokenLength(s: string): (n: nat)
    ensures n <= |s|
    ensures forall i :: 0 <= i < n ==> !IsSpace(s[i])
    ensures n == |s| || IsSpace(s[n])
  {
    if |s| == 0 || IsSpace(s[0]) then 0 else 1 + TokenLength(s[1..])
  }

  /** hyprutils CConstVarList(s, 0, 's', true): whitespace-separated tokens,
      empty tokens dropped. */
  function Words(s: string): (r: seq<string>)
    ensures WordList(r)
    decreases |s|
  {
    var t := TrimStart(s);
    if |t| == 0 then []
    else
      var n := TokenLength(t);
      var rest := Words(t[n..]);
      ConsWord(t[..n], rest);
      [t[..n]] + rest
  }

  /** Every entry is a non-empty run of non-whitespace characters. */
  predicate WordList(ws: seq<string>) {
    forall i :: 0 <= i < |ws| ==> |ws[i]| > 0 && NoSpace(ws[i])
  }

  lemma ConsWord(w: string, ws: seq<string>)
    requires |w| > 0 && NoSpace(w) && WordList(ws)
    ensures WordList([w] + ws)
  {
    assert forall i :: 0 < i <= |ws| ==> ([w] + ws)[i] == ws[i - 1];
  }

  /** CConstVarList::operator[]: the empty string past the last token. */
  function Arg(args: seq<string>, i: nat): string {
    if i < |args| then args[i] else ""
  }

  /** The colon-terminated category path: "a:b:" for the stack [a, b]. */
  function ColonPrefix(cats: seq<string>): (r: string)
    ensures |cats| == 0 ==> r == ""
  {
    if |cats| == 0 then "" else ColonPrefix(cats[..|cats| - 1]) + cats[|cats| - 1] + ":"
  }

  /** What a `const char*` made from this std::string reads back as: the text
      before the first NUL character. */
  function CString(s: string): (r: string)
    ensures |r| <= |s| && r == s[..|r|]
    ensures '\0' !in r
    ensures '\0' !in s ==> r == s
  {
    if |s| == 0 || s[0] == '\0' then "" else [s[0]] + CString(s[1..])
  }
}
