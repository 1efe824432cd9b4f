/** The `java.lang.String` operations the core relies on: `split` with a
    one-character delimiter, `trim`, `toUpperCase` and the `compareTo` order. */
module JavaStrings {

  /** The text between consecutive occurrences of `sep`, empty pieces included:
      there is always one more piece than there are separators. */
  function Pieces(s: string, sep: char): (r: seq<string>)
    ensures |r| >= 1
  {
    if s == [] then [[]]
    else
      var rest := Pieces(s[1..], sep);
      if s[0] == sep then [[]] + rest else [[s[0]] + rest[0]] + rest[1..]
  }

  /** Removes the empty strings at the end of a split result. */
  function DropTrailingEmpty(ps: seq<string>): (r: seq<string>)
    ensures |r| <= |ps| && r == ps[..|r|]
    ensures r == [] || r[|r| - 1] != []
    ensures forall i :: |r| <= i < |ps| ==> ps[i] == []
  {
    if ps == [] then []
    else if ps[|ps| - 1] == [] then DropTrailingEmpty(ps[..|ps| - 1])
    else ps
  }

  /** `s.split(sep)` for a delimiter that is not a regular-expression
      metacharacter and the default limit 0: an input without the delimiter is
      returned whole (so `""` gives one empty field), otherwise every piece is
      kept except the empty ones at the end. */
  function Split(s: string, sep: char): (r: seq<string>)
    ensures sep !in s ==> r == [s]
    ensures sep in s ==> r == DropTrailingEmpty(Pieces(s, sep))
  {
    if sep !in s then [s] else DropTrailingEmpty(Pieces(s, sep))
  }

  /** The fields joined with `sep` between them, as `String.format` and `+`
      build the lines the core writes. */
  function Join(fields: seq<string>, sep: char): string
    requires |fields| >= 1
  {
    if |fields| == 1 then fields[0] else fields[0] + [sep] + Join(fields[1..], sep)
  }

  /** Splitting a concatenation at a separator splits each side on its own. */
  lemma {:induction false} PiecesConcat(a: string, b: string, sep: char)
    ensures Pieces(a + [sep] + b, sep) == Pieces(a, sep) + Pieces(b, sep)
  {
    if a == [] {
      assert a + [sep] + b == [sep] + b;
      assert ([sep] + b)[1..] == b;
    } else {
      assert (a + [sep] + b)[1..] == a[1..] + [sep] + b;
      PiecesConcat(a[1..], b, sep);
    }
  }

  lemma {:induction false} PiecesWithout(s: string, sep: char)
    requires sep !in s
    ensures Pieces(s, sep) == [s]
  {
    if s != [] {
      PiecesWithout(s[1..], sep);
      assert [s[0]] + s[1..] == s;
    }
  }

  lemma {:induction false} PiecesWith(s: string, sep: char)
    requires sep in s
    ensures |Pieces(s, sep)| >= 2
  {
    if s[0] != sep {
      PiecesWith(s[1..], sep);
    }
  }

  /** Splitting the joined fields gives the fields back when none of them
      contains the separator. */
  lemma {:induction false} PiecesOfJoin(fields: seq<string>, sep: char)
    requires |fields| >= 1
    requires forall i :: 0 <= i < |fields| ==> sep !in fields[i]
    ensures Pieces(Join(fields, sep), sep) == fields
  {
    if |fields| == 1 {
      PiecesWithout(fields[0], sep);
    } else {
      PiecesOfJoin(fields[1..], sep);
      PiecesConcat(fields[0], Join(fields[1..], sep), sep);
      PiecesWithout(fields[0], sep);
      assert [fields[0]] + fields[1..] == fields;
    }
  }

  lemma {:induction false} JoinContains(fields: seq<string>, sep: char)
    requires |fields| >= 2
    ensures sep in Join(fields, sep)
  {
    assert Join(fields, sep) == fields[0] + [sep] + Join(fields[1..], sep);
    assert Join(fields, sep)[|fields[0]|] == sep;
  }

  /** `split` undoes the joining of at least two separator-free fields whose
      last field is not empty (an empty last field would be dropped). */
  lemma SplitJoin(fields: seq<string>, sep: char)
    requires |fields| >= 2 && fields[|fields| - 1] != []
    requires forall i :: 0 <= i < |fields| ==> sep !in fields[i]
    ensures Split(Join(fields, sep), sep) == fields
  {
    JoinContains(fields, sep);
    PiecesOfJoin(fields, sep);
  }

  /** The characters `trim` removes: every code point up to U+0020. */
  predicate IsBlank(c: char) { c <= ' ' }

  function TrimStart(s: string): (r: string)
    ensures r == [] || !IsBlank(r[0])
    ensures |r| <= |s| && r == s[|s| - |r|..]
  {
    if s != [] && IsBlank(s[0]) then TrimStart(s[1..]) else s
  }

  function TrimEnd(s: string): (r: string)
    ensures r == [] || !IsBlank(r[|r| - 1])
    ensures |r| <= |s| && r == s[..|r|]
  {
    if s != [] && IsBlank(s[|s| - 1]) then TrimEnd(s[..|s| - 1]) else s
  }

  /** `s.trim()`: the longest substring that neither starts nor ends with a blank. */
  function Trim(s: string): (r: string)
    ensures r == [] || (!IsBlank(r[0]) && !IsBlank(r[|r| - 1]))
    ensures |r| <= |s|
  {
    TrimEnd(TrimStart(s))
  }

  /** A string that neither starts nor ends with a blank is its own trim. */
  lemma TrimUnchanged(s: string)
    requires s != [] && !IsBlank(s[0]) && !IsBlank(s[|s| - 1])
    ensures Trim(s) == s
  {
  }

  /** `Character.toUpperCase` on the ASCII letters; every other character is kept. */
  function UpperChar(c: char): char
  {
    if 'a' <= c <= 'z' then (c as int - 32) as char else c
  }

  /** `s.toUpperCase()`, character by character. */
  function ToUpper(s: string): (r: string)
    ensures |r| == |s|
    ensures forall i :: 0 <= i < |s| ==> r[i] == UpperChar(s[i])
  {
    seq(|s|, i requires 0 <= i < |s| => UpperChar(s[i]))
  }

  /** Upper-casing twice is upper-casing once. */
  lemma ToUpperIdempotent(s: string)
    ensures ToUpper(ToUpper(s)) == ToUpper(s)
  {
    assert forall i :: 0 <= i < |s| ==> UpperChar(UpperChar(s[i])) == UpperChar(s[i]);
  }

  /** The first UTF-16 code unit of `c`: the character itself inside the Basic
      Multilingual Plane, its high surrogate (D800-DBFF) outside it. */
  function FirstUnit(c: char): (u: int)
    ensures 0 <= u < 0x10000
    ensures (c as int < 0x10000) == (u == c as int)
  {
    if c as int < 0x10000 then c as int else 0xD800 + (c as int - 0x10000) / 0x400
  }

  /** `String.compareTo` on two different characters compares their UTF-16 code
      units: the first units decide, and characters sharing a high surrogate
      are ordered by their low surrogates, that is by code point. */
  predicate CharBefore(x: char, y: char)
  {
    FirstUnit(x) < FirstUnit(y) || (FirstUnit(x) == FirstUnit(y) && x < y)
  }

  /** `a.compareTo(b) < 0`: the first differing character decides, and a proper
      prefix comes first. */
  predicate Before(a: string, b: string)
  {
    if a == [] then b != []
    else if b == [] then false
    else if a[0] != b[0] then CharBefore(a[0], b[0])
    else Before(a[1..], b[1..])
  }

  /** Code-unit order is not code-point order: U+1F600, written D83D DE00,
      comes before U+E000, and U+10000 comes before U+FFFF. */
  lemma BeforeByCodeUnits()
    ensures Before(['\U{1F600}'], ['\U{E000}']) && !Before(['\U{E000}'], ['\U{1F600}'])
    ensures Before(['\U{10000}'], ['\U{FFFF}'])
    ensures Before(['A'], ['B']) && Before(['A'], ['A', 'B'])
  {
  }

  lemma {:induction false} BeforeIrreflexive(a: string)
    ensures !Before(a, a)
  {
    if a != [] {
      BeforeIrreflexive(a[1..]);
    }
  }

  lemma {:induction false} BeforeTransitive(a: string, b: string, c: string)
    requires Before(a, b) && Before(b, c)
    ensures Before(a, c)
  {
    if a != [] && b != [] && c != [] && a[0] == b[0] && b[0] == c[0] {
      BeforeTransitive(a[1..], b[1..], c[1..]);
    }
  }

  /** Two different strings are always ordered one way or the other. */
  lemma {:induction false} BeforeTotal(a: string, b: string)
    requires a != b
    ensures Before(a, b) || Before(b, a)
  {
    if a != [] && b != [] && a[0] == b[0] {
      assert a == [a[0]] + a[1..] && b == [b[0]] + b[1..];
      BeforeTotal(a[1..], b[1..]);
    }
  }

  /** Strictly increasing in the `compareTo` order, hence without repetitions. */
  predicate StrictlySorted(s: seq<string>)
  {
    forall i, j :: 0 <= i < j < |s| ==> Before(s[i], s[j])
  }

  /** Adds `k` at its place in a strictly sorted sequence, as a `TreeSet` does. */
  function InsertSorted(s: seq<string>, k: string): (r: seq<string>)
    requires StrictlySorted(s) && k !in s
    ensures StrictlySorted(r)
    ensures |r| == |s| + 1
    ensures forall x :: x in r <==> x in s || x == k
  {
    if s == [] then [k]
    else if Before(k, s[0]) then
      assert forall j :: 0 <= j < |s| ==> Before(k, s[j]) by {
        forall j | 0 < j < |s| {
          BeforeTransitive(k, s[0], s[j]);
        }
      }
      [k] + s
    else
      BeforeTotal(k, s[0]);
      var rest := InsertSorted(s[1..], k);
      assert forall x :: x in s <==> x == s[0] || x in s[1..] by {
        assert s == [s[0]] + s[1..];
      }
      assert forall j :: 0 <= j < |rest| ==> Before(s[0], rest[j]) by {
        forall j | 0 <= j < |rest| ensures Before(s[0], rest[j]) {
          assert rest[j] in rest;
          if rest[j] != k {
            var m :| 0 <= m < |s[1..]| && s[1..][m] == rest[j];
            assert s[m + 1] == rest[j];
          }
        }
      }
      [s[0]] + rest
  }
}
