/** The few java.lang.String operations whose exact semantics the core relies on:
    `trim`, `lastIndexOf(char)`, `split` on a one-character literal separator, and
    `compareTo`. Prefix tests (`startsWith`) are Dafny's sequence prefix `<=`. */
module JavaString {

  /** `String.trim` removes every character at or below U+0020 from both ends. */
  predicate IsTrimmable(c: char) {
    c <= ' '
  }

  function TrimStart(s: string): (r: string)
    ensures |r| <= |s| && r == s[|s| - |r|..]
    ensures forall k :: 0 <= k < |s| - |r| ==> IsTrimmable(s[k])
    ensures |r| > 0 ==> !IsTrimmable(r[0])
  {
    if |s| > 0 && IsTrimmable(s[0]) then TrimStart(s[1..]) else s
  }

  function TrimEnd(s: string): (r: string)
    ensures |r| <= |s| && r == s[..|r|]
    ensures forall k :: |r| <= k < |s| ==> IsTrimmable(s[k])
    ensures |r| > 0 ==> !IsTrimmable(r[|r| - 1])
    ensures |s| > 0 && !IsTrimmable(s[0]) ==> |r| > 0
  {
    if |s| > 0 && IsTrimmable(s[|s| - 1]) then TrimEnd(s[..|s| - 1]) else s
  }

  /** How many trimmable characters `String.trim` removes from the front of `s`. */
  function TrimOffset(s: string): nat
  {
    |s| - |TrimStart(s)|
  }

  /** Java's `String.trim`: the infix of `s` that neither starts nor ends with a
      trimmable character, obtained by removing only trimmable characters. */
  function Trim(s: string): (r: string)
    ensures |r| > 0 ==> !IsTrimmable(r[0]) && !IsTrimmable(r[|r| - 1])
    ensures TrimOffset(s) <= |s| && r <= s[TrimOffset(s)..]
    ensures forall k :: 0 <= k < TrimOffset(s) ==> IsTrimmable(s[k])
    ensures forall k :: TrimOffset(s) + |r| <= k < |s| ==> IsTrimmable(s[k])
    ensures (|s| == 0 || (!IsTrimmable(s[0]) && !IsTrimmable(s[|s| - 1]))) ==> r == s
  {
    TrimHasTrimmedEnds(s);
    TrimIsInfix(s);
    TrimDropsLeadingTrimmable(s);
    TrimDropsTrailingTrimmable(s);
    TrimKeepsTrimmed(s);
    TrimEnd(TrimStart(s))
  }

  lemma TrimHasTrimmedEnds(s: string)
    ensures var r := TrimEnd(TrimStart(s));
            |r| > 0 ==> !IsTrimmable(r[0]) && !IsTrimmable(r[|r| - 1])
  {
  }

  lemma TrimDropsLeadingTrimmable(s: string)
    ensures forall k :: 0 <= k < TrimOffset(s) ==> IsTrimmable(s[k])
  {
  }

  lemma TrimIsInfix(s: string)
    ensures var r := TrimEnd(TrimStart(s));
            TrimOffset(s) <= |s| && r <= s[TrimOffset(s)..]
  {
    var t := TrimStart(s);
    var r := TrimEnd(t);
    assert t == s[TrimOffset(s)..];
    assert r == t[..|r|];
  }

  lemma TrimDropsTrailingTrimmable(s: string)
    ensures var r := TrimEnd(TrimStart(s));
            forall k :: TrimOffset(s) + |r| <= k < |s| ==> IsTrimmable(s[k])
  {
    var t := TrimStart(s);
    var r := TrimEnd(t);
    forall k | TrimOffset(s) + |r| <= k < |s|
      ensures IsTrimmable(s[k])
    {
      assert s[k] == t[k - TrimOffset(s)];
    }
  }

  lemma TrimKeepsTrimmed(s: string)
    ensures (|s| == 0 || (!IsTrimmable(s[0]) && !IsTrimmable(s[|s| - 1]))) ==> TrimEnd(TrimStart(s)) == s
  {
  }

  /** Java's `lastIndexOf(c)`: the greatest index holding `c`, or -1. */
  function LastIndexOf(s: string, c: char): (r: int)
    ensures -1 <= r < |s|
    ensures r >= 0 ==> s[r] == c
    ensures forall k :: r < k < |s| ==> s[k] != c
  {
    if |s| == 0 then -1
    else if s[|s| - 1] == c then |s| - 1
    else LastIndexOf(s[..|s| - 1], c)
  }

  /** The length Java's `String.length()` reports: a character above U+FFFF is a
      surrogate pair and counts as two UTF-16 code units. */
  function Utf16Length(s: string): (n: nat)
    ensures |s| <= n <= 2 * |s|
    ensures n == 0 <==> s == ""
  {
    if |s| == 0 then 0
    else (if s[0] as int >= 0x1_0000 then 2 else 1) + Utf16Length(s[1..])
  }

  /** Text made only of Basic Multilingual Plane characters has one code unit per character. */
  lemma {:induction false} Utf16LengthOfBmp(s: string)
    requires forall k :: 0 <= k < |s| ==> s[k] as int < 0x1_0000
    ensures Utf16Length(s) == |s|
  {
    if |s| > 0 {
      Utf16LengthOfBmp(s[1..]);
    }
  }

  /** A single character outside the Basic Multilingual Plane is two code units. */
  lemma AstralCharIsTwoUnits(c: char)
    requires c as int >= 0x1_0000
    ensures Utf16Length([c]) == 2
  {
    assert [c][1..] == "";
  }

  /** `n` copies of `c`. */
  function Repeat(c: char, n: nat): (r: string)
    ensures |r| == n
    ensures forall k :: 0 <= k < n ==> r[k] == c
  {
    if n == 0 then "" else [c] + Repeat(c, n - 1)
  }

  /** Every field of `s` between occurrences of `sep`, nothing dropped. This is
      what a regex split yields before Java removes trailing empty strings. */
  function Fields(s: string, sep: char): (r: seq<string>)
    ensures |r| >= 1
    ensures forall i :: 0 <= i < |r| ==> sep !in r[i]
  {
    if |s| == 0 then [""]
    else
      var rest := Fields(s[1..], sep);
      if s[0] == sep then [""] + rest
      else [[s[0]] + rest[0]] + rest[1..]
  }

  /** The fields separated by `sep`: the inverse of `Fields`. */
  function Join(fields: seq<string>, sep: char): string
    requires |fields| >= 1
  {
    if |fields| == 1 then fields[0] else fields[0] + [sep] + Join(fields[1..], sep)
  }

  lemma {:induction false} JoinFields(s: string, sep: char)
    ensures Join(Fields(s, sep), sep) == s
  {
    if |s| > 0 {
      var rest := Fields(s[1..], sep);
      JoinFields(s[1..], sep);
      if s[0] == sep {
        assert Fields(s, sep)[1..] == rest;
      } else {
        var f := Fields(s, sep);
        assert f[0] == [s[0]] + rest[0];
        if |rest| == 1 {
          assert Join(f, sep) == [s[0]] + rest[0];
        } else {
          assert f[1..] == rest[1..];
          assert Join(f, sep) == [s[0]] + rest[0] + [sep] + Join(rest[1..], sep);
        }
        assert s == [s[0]] + s[1..];
      }
    }
  }

  /** A separator-free field followed by a separator contributes exactly one field. */
  lemma {:induction false} FieldsOfSeparated(a: string, sep: char, t: string)
    requires sep !in a
    ensures Fields(a + [sep] + t, sep) == [a] + Fields(t, sep)
  {
    if |a| == 0 {
      assert a + [sep] + t == [sep] + t;
      assert ([sep] + t)[1..] == t;
    } else {
      var s := a + [sep] + t;
      assert s[0] == a[0] && s[1..] == a[1..] + [sep] + t;
      FieldsOfSeparated(a[1..], sep, t);
      assert [a[0]] + a[1..] == a;
    }
  }

  lemma {:induction false} FieldsOfPlain(a: string, sep: char)
    requires sep !in a
    ensures Fields(a, sep) == [a]
  {
    if |a| > 0 {
      FieldsOfPlain(a[1..], sep);
      assert [a[0]] + a[1..] == a;
    }
  }

  lemma {:induction false} FieldsJoin(fields: seq<string>, sep: char)
    requires |fields| >= 1
    requires forall i :: 0 <= i < |fields| ==> sep !in fields[i]
    ensures Fields(Join(fields, sep), sep) == fields
  {
    if |fields| == 1 {
      FieldsOfPlain(fields[0], sep);
    } else {
      FieldsJoin(fields[1..], sep);
      FieldsOfSeparated(fields[0], sep, Join(fields[1..], sep));
      assert [fields[0]] + fields[1..] == fields;
    }
  }

  function DropTrailingEmpty(fields: seq<string>): (r: seq<string>)
    ensures r <= fields
    ensures forall i :: |r| <= i < |fields| ==> fields[i] == ""
    ensures |r| == 0 || r[|r| - 1] != ""
  {
    if |fields| > 0 && fields[|fields| - 1] == "" then DropTrailingEmpty(fields[..|fields| - 1])
    else fields
  }

  /** Java's `s.split(x)` where `x` is the one-character string `[sep]` and `sep` is not a
      regex metacharacter: when `sep` does not occur the result is `[s]` (so `""` gives one
      field); otherwise every field, with trailing empty fields removed. */
  function Split(s: string, sep: char): (r: seq<string>)
    ensures sep !in s ==> r == [s]
    ensures sep in s ==> r <= Fields(s, sep)
                         && (forall i :: |r| <= i < |Fields(s, sep)| ==> Fields(s, sep)[i] == "")
                         && (|r| == 0 || r[|r| - 1] != "")
    ensures forall i :: 0 <= i < |r| ==> sep !in r[i]
  {
    if sep !in s then [s] else DropTrailingEmpty(Fields(s, sep))
  }

  /** Two separator-free fields, the second non-empty, followed by any number of
      separators split back into exactly those two fields. */
  lemma SplitPair(a: string, b: string, sep: char, n: nat)
    requires sep !in a && sep !in b && b != ""
    ensures Split(a + [sep] + b + Repeat(sep, n), sep) == [a, b]
  {
    var fs := [a, b] + seq(n, _ => "");
    forall i | 0 <= i < |fs| ensures sep !in fs[i] {
    }
    JoinOfPadded(a, b, sep, n);
    FieldsJoin(fs, sep);
    var s := a + [sep] + b + Repeat(sep, n);
    assert s[|a|] == sep;
    DropPadding(a, b, n);
  }

  lemma {:induction false} JoinOfPadded(a: string, b: string, sep: char, n: nat)
    ensures Join([a, b] + seq(n, _ => ""), sep) == a + [sep] + b + Repeat(sep, n)
  {
    if n == 0 {
      assert [a, b] + seq(0, _ => "") == [a, b];
      assert Join([b], sep) == b;
      assert Repeat(sep, 0) == "";
    } else {
      JoinOfPadded(a, b, sep, n - 1);
      JoinAppendEmpty([a, b] + seq(n - 1, _ => ""), sep);
      assert [a, b] + seq(n, _ => "") == [a, b] + seq(n - 1, _ => "") + [""];
      RepeatSnoc(sep, n - 1);
    }
  }

  lemma {:induction false} JoinAppendEmpty(fields: seq<string>, sep: char)
    requires |fields| >= 1
    ensures Join(fields + [""], sep) == Join(fields, sep) + [sep]
  {
    if |fields| == 1 {
      assert (fields + [""])[1..] == [""];
    } else {
      JoinAppendEmpty(fields[1..], sep);
      assert (fields + [""])[1..] == fields[1..] + [""];
    }
  }

  lemma {:induction false} RepeatSnoc(c: char, n: nat)
    ensures Repeat(c, n + 1) == Repeat(c, n) + [c]
  {
    if n > 0 {
      RepeatSnoc(c, n - 1);
    }
  }

  lemma {:induction false} DropPadding(a: string, b: string, n: nat)
    requires b != ""
    ensures DropTrailingEmpty([a, b] + seq(n, _ => "")) == [a, b]
  {
    if n > 0 {
      var fs := [a, b] + seq(n, _ => "");
      assert fs[..|fs| - 1] == [a, b] + seq(n - 1, _ => "");
      DropPadding(a, b, n - 1);
    } else {
      assert [a, b] + seq(0, _ => "") == [a, b];
    }
  }

  /** When `Split` yields exactly two fields, the input is those fields joined by one
      separator and followed only by separators. */
  lemma SplitPairShape(s: string, sep: char)
    requires |Split(s, sep)| == 2
    ensures var r := Split(s, sep);
            && r[0] + [sep] + r[1] <= s
            && forall k :: |r[0]| + 1 + |r[1]| <= k < |s| ==> s[k] == sep
  {
    var r := Split(s, sep);
    var fs := Fields(s, sep);
    JoinFields(s, sep);
    var n := |fs| - 2;
    assert fs == [r[0], r[1]] + seq(n, _ => "");
    JoinOfPadded(r[0], r[1], sep, n);
  }

  /** Java's `String.compareTo`: the difference of the first differing characters, or
      else the difference of the lengths. */
  function CompareTo(a: string, b: string): (r: int)
    ensures r == 0 <==> a == b
  {
    if |a| == 0 || |b| == 0 then |a| - |b|
    else if a[0] != b[0] then a[0] as int - b[0] as int
    else
      var r := CompareTo(a[1..], b[1..]);
      assert a == [a[0]] + a[1..] && b == [b[0]] + b[1..];
      r
  }

  lemma {:induction false} CompareToAntisymmetric(a: string, b: string)
    ensures CompareTo(a, b) == -CompareTo(b, a)
  {
    if |a| > 0 && |b| > 0 && a[0] == b[0] {
      CompareToAntisymmetric(a[1..], b[1..]);
    }
  }

  lemma {:induction false} CompareToTransitive(a: string, b: string, c: string)
    requires CompareTo(a, b) >= 0 && CompareTo(b, c) >= 0
    ensures CompareTo(a, c) >= 0
  {
    if |a| > 0 && |b| > 0 && |c| > 0 && a[0] == b[0] && b[0] == c[0] {
      CompareToTransitive(a[1..], b[1..], c[1..]);
    }
  }

  /** A proper prefix sorts strictly before any extension of it. */
  lemma {:induction false} ProperPrefixIsLess(a: string, b: string)
    requires a <= b && a != b
    ensures CompareTo(a, b) < 0
  {
    if |a| > 0 {
      assert a[1..] <= b[1..];
      ProperPrefixIsLess(a[1..], b[1..]);
    }
  }

  /** Two prefixes of the same string are prefixes of one another. */
  lemma PrefixesAreNested(a: string, b: string, s: string)
    requires a <= s && b <= s
    ensures a <= b || b <= a
  {
    if |a| <= |b| {
      assert b[..|a|] == s[..|a|] == a;
    } else {
      assert a[..|b|] == s[..|b|] == b;
    }
  }
}
