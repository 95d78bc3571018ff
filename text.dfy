/** ASCII views of the Ruby string operations the moderation service uses:
    `downcase`, `blank?`, `start_with?` and `split`. Characters outside ASCII
    are left as they are by `Downcase` (Ruby's `downcase` would fold them by
    Unicode rules). */
module Text {

  predicate IsUpper(c: char) {
    'A' <= c <= 'Z'
  }

  /** `[[:space:]]` restricted to ASCII: space, tab, LF, VT, FF, CR. */
  predicate IsSpace(c: char) {
    c == ' ' || c == '\t' || c == '\n' || c == '\U{B}' || c == '\U{C}' || c == '\r'
  }

  function LowerChar(c: char): (d: char)
    ensures !IsUpper(d)
    ensures IsUpper(c) ==> d as int == c as int + 32
    ensures !IsUpper(c) ==> d == c
  {
    if IsUpper(c) then (c as int + 32) as char else c
  }

  /** Ruby `String#downcase`, ASCII letters only. */
  function Downcase(s: string): (r: string)
    ensures |r| == |s|
    ensures forall i :: 0 <= i < |s| ==> r[i] == LowerChar(s[i])
  {
    seq(|s|, i requires 0 <= i < |s| => LowerChar(s[i]))
  }

  predicate IsLower(s: string) {
    forall i :: 0 <= i < |s| ==> !IsUpper(s[i])
  }

  lemma DowncaseIsLower(s: string)
    ensures IsLower(Downcase(s))
    ensures Downcase(Downcase(s)) == Downcase(s)
  {
  }

  lemma DowncaseOfLower(s: string)
    requires IsLower(s)
    ensures Downcase(s) == s
  {
  }

  /** Ruby `String#blank?`: empty or whitespace only. */
  predicate IsBlank(s: string) {
    forall i :: 0 <= i < |s| ==> IsSpace(s[i])
  }

  /** Ruby `String#start_with?` with one string prefix. */
  predicate StartsWith(s: string, prefix: string) {
    |prefix| <= |s| && s[..|prefix|] == prefix
  }

  /** Splits `s` at every occurrence of `sep`, keeping every field, empty
      ones included: `k` separators give `k + 1` fields. */
  function Fields(s: string, sep: char): (r: seq<string>)
    ensures |r| >= 1
    ensures forall i :: 0 <= i < |r| ==> sep !in r[i]
    decreases |s|
  {
    if |s| == 0 then [""]
    else
      var rest := Fields(s[1..], sep);
      if s[0] == sep then [""] + rest
      else [[s[0]] + rest[0]] + rest[1..]
  }

  /** The inverse of `Fields`: the fields with `sep` between them. */
  function Join(fields: seq<string>, sep: char): string
    decreases |fields|
  {
    if |fields| == 0 then ""
    else if |fields| == 1 then fields[0]
    else fields[0] + [sep] + Join(fields[1..], sep)
  }

  /** Splitting and joining back gives the original string: no character
      is lost or added by `Fields`. */
  lemma {:induction false} JoinFields(s: string, sep: char)
    ensures Join(Fields(s, sep), sep) == s
    decreases |s|
  {
    if |s| > 0 {
      var rest := Fields(s[1..], sep);
      JoinFields(s[1..], sep);
      if s[0] == sep {
        assert Fields(s, sep) == [""] + rest;
        assert ([""] + rest)[1..] == rest;
      } else {
        var r := [[s[0]] + rest[0]] + rest[1..];
        assert Fields(s, sep) == r;
        if |rest| == 1 {
          assert Join(rest, sep) == rest[0];
        } else {
          assert r[1..] == rest[1..];
          assert Join(rest, sep) == rest[0] + [sep] + Join(rest[1..], sep);
        }
      }
    }
  }

  /** A string without the separator is a single field. */
  lemma {:induction false} FieldsWithoutSep(s: string, sep: char)
    requires sep !in s
    ensures Fields(s, sep) == [s]
    decreases |s|
  {
    if |s| > 0 {
      FieldsWithoutSep(s[1..], sep);
      assert [s[0]] + s[1..] == s;
    }
  }

  /** The text before the first separator is the first field; the rest
      is split on its own. */
  lemma {:induction false} FieldsAtSep(a: string, sep: char, b: string)
    requires sep !in a
    ensures Fields(a + [sep] + b, sep) == [a] + Fields(b, sep)
    decreases |a|
  {
    var s := a + [sep] + b;
    if |a| == 0 {
      assert s[1..] == b;
    } else {
      assert s[1..] == a[1..] + [sep] + b;
      FieldsAtSep(a[1..], sep, b);
      assert [a[0]] + a[1..] == a;
    }
  }

  /** Removes the empty fields at the end, as Ruby's `split` does. */
  function DropTrailingEmpty(fields: seq<string>): (r: seq<string>)
    ensures |r| <= |fields| && r == fields[..|r|]
    ensures |r| > 0 ==> r[|r| - 1] != ""
    ensures forall i :: |r| <= i < |fields| ==> fields[i] == ""
    decreases |fields|
  {
    if |fields| > 0 && fields[|fields| - 1] == "" then DropTrailingEmpty(fields[..|fields| - 1])
    else fields
  }

  /** Ruby `String#split(sep)` for a one-character, non-space separator:
      every field in order, minus the empty fields at the end; so `""` and
      `","` both split into no fields at all. */
  function Split(s: string, sep: char): seq<string> {
    DropTrailingEmpty(Fields(s, sep))
  }

  /** Every non-empty field of `s` survives Ruby's `split`. */
  lemma SplitKeepsNonEmpty(s: string, sep: char, f: string)
    requires f in Fields(s, sep) && f != ""
    ensures f in Split(s, sep)
  {
    var fs := Fields(s, sep);
    var r := Split(s, sep);
    var i :| 0 <= i < |fs| && fs[i] == f;
    assert i < |r| && r[i] == f;
  }

  /** What Ruby's `split` returns is exactly the field list with its empty
      tail cut off, so joining it back loses only trailing separators. */
  lemma SplitIsFieldsPrefix(s: string, sep: char)
    ensures Split(s, sep) == Fields(s, sep)[..|Split(s, sep)|]
    ensures forall f :: f in Split(s, sep) ==> f in Fields(s, sep) && sep !in f
  {
  }
}
