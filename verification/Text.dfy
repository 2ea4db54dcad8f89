/** Strings as the repository uses them: byte order, ASCII case folding, substring search and trimming. */
module Text {

  /** `strings.Compare(a, b) < 0`. */
  predicate Less(a: string, b: string) {
    b != [] && (a == [] || a[0] < b[0] || (a[0] == b[0] && Less(a[1..], b[1..])))
  }

  function Alphabetical(): (string, string) -> bool {
    (a, b) => Less(a, b)
  }

  lemma {:induction false} LessIrreflexive(a: string)
    ensures !Less(a, a)
  {
    if a != [] { LessIrreflexive(a[1..]); }
  }

  lemma {:induction false} LessTransitive(a: string, b: string, c: string)
    requires Less(a, b) && Less(b, c)
    ensures Less(a, c)
  {
    if a != [] && a[0] == b[0] && b[0] == c[0] { LessTransitive(a[1..], b[1..], c[1..]); }
  }

  lemma {:induction false} LessTotal(a: string, b: string)
    requires a != b
    ensures Less(a, b) || Less(b, a)
  {
    if a != [] && b != [] && a[0] == b[0] {
      assert a == [a[0]] + a[1..] && b == [b[0]] + b[1..];
      LessTotal(a[1..], b[1..]);
    }
  }

  /** `strings.ToLower`, for ASCII. */
  function ToLower(s: string): string {
    seq(|s|, i requires 0 <= i < |s| => if 'A' <= s[i] <= 'Z' then s[i] - 'A' + 'a' else s[i])
  }

  /** `strings.Contains`. */
  predicate Contains(s: string, t: string) {
    exists i | 0 <= i <= |s| :: t <= s[i..]
  }

  predicate IsSpace(c: char) {
    c == ' ' || '\t' <= c <= '\r' || c == '\U{85}' || c == '\U{A0}'
  }

  /** `strings.TrimSpace`, for the blanks of Latin-1. */
  function TrimSpace(s: string): string {
    if s != [] && IsSpace(s[0]) then TrimSpace(s[1..])
    else if s != [] && IsSpace(s[|s| - 1]) then TrimSpace(s[..|s| - 1])
    else s
  }

  /** The length of the leading run without blanks. */
  function WordLength(s: string): (n: nat)
    ensures n <= |s| && forall i | 0 <= i < n :: !IsSpace(s[i])
    ensures n < |s| ==> IsSpace(s[n])
  {
    if s == [] || IsSpace(s[0]) then 0 else WordLength(s[1..]) + 1
  }

  /** `strings.Fields`: the maximal runs without blanks, in order. */
  function Fields(s: string): seq<string> {
    if s == [] then []
    else if IsSpace(s[0]) then Fields(s[1..])
    else [s[..WordLength(s)]] + Fields(s[WordLength(s)..])
  }

  predicate IsWord(s: string) {
    s != [] && forall c | c in s :: !IsSpace(c)
  }

  // ---------- what these functions do ----------

  /** The blanks, one by one. */
  lemma BlanksAre(c: char)
    ensures IsSpace(c) <==> c in [' ', '\t', '\n', '\U{B}', '\U{C}', '\r', '\U{85}', '\U{A0}']
  {}

  /** Folding works character by character, leaves what is not a capital alone and no capital behind. */
  lemma ToLowerIs(s: string, t: string)
    ensures ToLower(s + t) == ToLower(s) + ToLower(t) && ToLower(ToLower(s)) == ToLower(s)
    ensures forall c | c in ToLower(s) :: !('A' <= c <= 'Z')
    ensures (forall c | c in s :: !('A' <= c <= 'Z')) ==> ToLower(s) == s
    ensures ToLower("ABCDEFGHIJKLMNOPQRSTUVWXYZ") == "abcdefghijklmnopqrstuvwxyz"
  {
    assert forall i | 0 <= i < |s| :: s[i] in s;
  }

  /** One text occurs in another exactly when it can be cut out of it. */
  lemma ContainsIff(s: string, t: string)
    ensures Contains(s, t) <==> exists before, after :: s == before + t + after
  {
    if i :| 0 <= i <= |s| && t <= s[i..] {
      assert s == s[..i] + t + s[i + |t|..];
    }
    if before, after :| s == before + t + after {
      assert s[|before|..] == t + after;
      assert t <= s[|before|..];
    }
  }

  /** Trimming takes blanks off both ends, all of them, and nothing else. */
  lemma {:induction false} TrimmedIs(s: string) returns (before: string, after: string)
    ensures s == before + TrimSpace(s) + after && forall c | c in before + after :: IsSpace(c)
    ensures var t := TrimSpace(s); t != [] ==> !IsSpace(t[0]) && !IsSpace(t[|t| - 1])
  {
    before, after := [], [];
    if s != [] && IsSpace(s[0]) {
      before, after := TrimmedIs(s[1..]);
      before := [s[0]] + before;
      assert s == [s[0]] + s[1..];
    } else if s != [] && IsSpace(s[|s| - 1]) {
      before, after := TrimmedIs(s[..|s| - 1]);
      after := after + [s[|s| - 1]];
      assert s == s[..|s| - 1] + [s[|s| - 1]];
    }
  }

  lemma {:induction false} WordLengthOf(a: string, b: string)
    requires (forall c | c in a :: !IsSpace(c)) && (b == [] || IsSpace(b[0]))
    ensures WordLength(a + b) == |a|
  {
    if a != [] {
      assert (a + b)[1..] == a[1..] + b;
      WordLengthOf(a[1..], b);
    } else {
      assert a + b == b;
    }
  }

  lemma FirstField(w: string, rest: string)
    requires IsWord(w) && (rest == [] || IsSpace(rest[0]))
    ensures Fields(w + rest) == [w] + Fields(rest)
  {
    WordLengthOf(w, rest);
    assert w[0] in w;
    assert (w + rest)[..|w|] == w && (w + rest)[|w|..] == rest;
  }

  /** A text without blanks is its own one field. */
  lemma FieldsOfWord(w: string)
    requires IsWord(w)
    ensures Fields(w) == [w]
  {
    FirstField(w, []);
    assert w + [] == w;
  }

  /** A blank separates: with FieldsOfWord, and no fields in the empty text, this says what the fields of any text are. */
  lemma {:induction false} FieldsSplit(a: string, c: char, b: string)
    requires IsSpace(c)
    ensures Fields(a + [c] + b) == Fields(a) + Fields(b)
    decreases |a|
  {
    if a == [] {
      assert ([] + [c] + b)[1..] == b;
    } else if IsSpace(a[0]) {
      assert (a + [c] + b)[1..] == a[1..] + [c] + b;
      FieldsSplit(a[1..], c, b);
    } else {
      var n := WordLength(a);
      SplitAfterWord(a[..n], a[n..], c, b);
      assert a == a[..n] + a[n..];
      FieldsSplit(a[n..], c, b);
    }
  }

  lemma SplitAfterWord(w: string, a: string, c: char, b: string)
    requires IsWord(w) && IsSpace(c) && (a == [] || IsSpace(a[0]))
    ensures Fields(w + a) == [w] + Fields(a)
    ensures Fields(w + a + [c] + b) == [w] + Fields(a + [c] + b)
  {
    FirstField(w, a);
    FirstField(w, a + [c] + b);
    assert w + a + [c] + b == w + (a + [c] + b);
  }

  lemma {:induction false} FieldsAreWords(s: string)
    ensures forall f | f in Fields(s) :: IsWord(f)
    ensures Fields(s) == [] <==> forall c | c in s :: IsSpace(c)
    decreases |s|
  {
    if s != [] {
      assert s == [s[0]] + s[1..];
      if IsSpace(s[0]) {
        FieldsAreWords(s[1..]);
      } else {
        FieldsAreWords(s[WordLength(s)..]);
        assert s[0] in s;
      }
    }
  }

  /** a comes first exactly when it ends where b goes on, or has the smaller character where they first differ. */
  lemma {:induction false} LessIff(a: string, b: string)
    ensures Less(a, b) <==> exists i :: DiffersAt(a, b, i) && (i == |a| || (i < |a| && a[i] < b[i]))
  {
    if a != [] && b != [] && a[0] == b[0] {
      LessIff(a[1..], b[1..]);
      forall i ensures DiffersAt(a, b, i) <==> i > 0 && DiffersAt(a[1..], b[1..], i - 1) {
        if DiffersAt(a, b, i) { assert a[..i][1..] == a[1..][..i - 1] && b[..i][1..] == b[1..][..i - 1]; }
        if i > 0 && DiffersAt(a[1..], b[1..], i - 1) {
          assert a[..i] == [a[0]] + a[1..][..i - 1] && b[..i] == [b[0]] + b[1..][..i - 1];
        }
      }
      if i :| DiffersAt(a[1..], b[1..], i) && (i == |a[1..]| || a[1..][i] < b[1..][i]) {
        assert DiffersAt(a, b, i + 1);
      }
      if i :| DiffersAt(a, b, i) && (i == |a| || a[i] < b[i]) {
        assert DiffersAt(a[1..], b[1..], i - 1);
      }
    } else if b != [] {
      assert DiffersAt(a, b, 0);
    }
  }

  /** The two agree before i, where b has a character that a has not. */
  predicate DiffersAt(a: string, b: string, i: int) {
    0 <= i <= |a| && i < |b| && a[..i] == b[..i] && (i < |a| ==> a[i] != b[i])
  }
}
