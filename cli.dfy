/** The command-line front end of distributed_apply_transform,
    scripts/main_apply_local_transform.py: the argument parsers `_inttuple`
    and `_stringlist` over Python's str.split, str.strip and int(), and the
    defaulting that `_run_apply_transform` does before it hands the images,
    spacings, block size and transform list to distributed_apply_transform.
    The metadata the script reads from its images is an input; reading and
    writing images, loading the affine files and the cluster are left out. */
module Cli {
  import opened Wrappers
  import opened Axis
  import opened Arrays
  import opened MovingBox
  import opened TransformLocalizer

  // ---------------------------------------------------------------------
  // str.split

  /** s.split(sep): the pieces between separators, in order. A string
      without a separator is a single piece, so there is always one. */
  function Split(s: string, sep: char): (r: seq<string>)
    ensures |r| > 0 && forall k :: 0 <= k < |r| ==> sep !in r[k]
  {
    if s == [] then [[]]
    else
      var rest := Split(s[1..], sep);
      if s[0] == sep then [[]] + rest else [[s[0]] + rest[0]] + rest[1..]
  }

  /** sep.join(parts). */
  function Join(parts: seq<string>, sep: char): string
    requires |parts| > 0
  {
    if |parts| == 1 then parts[0] else parts[0] + [sep] + Join(parts[1..], sep)
  }

  /** Joining the pieces with the separator gives the string back. */
  lemma {:induction false} JoinSplit(s: string, sep: char)
    ensures Join(Split(s, sep), sep) == s
  {
    if s != [] {
      var rest := Split(s[1..], sep);
      JoinSplit(s[1..], sep);
      if s[0] == sep {
        assert ([[]] + rest)[1..] == rest;
      } else if |rest| > 1 {
        assert (rest[1..])[..] == rest[1..];
        assert ([[s[0]] + rest[0]] + rest[1..])[1..] == rest[1..];
      }
    }
  }

  /** A leading piece without the separator stays one piece with whatever
      starts the rest. */
  lemma {:induction false} SplitPrefix(p: string, tail: string, sep: char)
    requires sep !in p
    ensures var t := Split(tail, sep);
      Split(p + tail, sep) == [p + t[0]] + t[1..]
  {
    var t := Split(tail, sep);
    if p == [] {
      assert p + tail == tail;
      assert p + t[0] == t[0];
      assert [t[0]] + t[1..] == t;
    } else {
      SplitPrefix(p[1..], tail, sep);
      assert (p + tail)[1..] == p[1..] + tail;
      assert [p[0]] + (p[1..] + t[0]) == p + t[0];
    }
  }

  /** Splitting a join of separator-free pieces gives the pieces back. */
  lemma {:induction false} SplitJoin(parts: seq<string>, sep: char)
    requires |parts| > 0 && forall k :: 0 <= k < |parts| ==> sep !in parts[k]
    ensures Split(Join(parts, sep), sep) == parts
  {
    if |parts| == 1 {
      SplitPrefix(parts[0], [], sep);
      assert parts[0] + [] == parts[0];
    } else {
      var rest := Join(parts[1..], sep);
      SplitJoin(parts[1..], sep);
      SplitPrefix(parts[0], [sep] + rest, sep);
      assert parts[0] + [sep] + rest == parts[0] + ([sep] + rest);
      assert ([sep] + rest)[1..] == rest;
      var t := Split([sep] + rest, sep);
      assert t == [[]] + parts[1..];
      assert parts[0] + t[0] == parts[0];
      assert [parts[0]] + parts[1..] == parts;
    }
  }

  /** Appending a separator adds one empty piece at the end. */
  lemma {:induction false} JoinTrailing(parts: seq<string>, sep: char)
    requires |parts| > 0
    ensures Join(parts + [[]], sep) == Join(parts, sep) + [sep]
  {
    if |parts| > 1 {
      JoinTrailing(parts[1..], sep);
      assert (parts + [[]])[1..] == parts[1..] + [[]];
    } else {
      assert (parts + [[]])[1..] == [[]];
    }
  }

  // ---------------------------------------------------------------------
  // str.strip

  /** Python's str.isspace for one character: the ASCII whitespace, the
      separators U+001C to U+001F, and the Unicode space characters. */
  predicate IsSpace(c: char)
  {
    var n := c as int;
    9 <= n <= 13 || 28 <= n <= 32 || n == 0x85 || n == 0xA0 || n == 0x1680 ||
    0x2000 <= n <= 0x200A || n == 0x2028 || n == 0x2029 || n == 0x202F ||
    n == 0x205F || n == 0x3000
  }

  /** Every character is whitespace (the empty string included). */
  predicate Blank(s: string)
  {
    forall k :: 0 <= k < |s| ==> IsSpace(s[k])
  }

  /** No leading and no trailing whitespace. */
  predicate Stripped(s: string)
  {
    s == [] || (!IsSpace(s[0]) && !IsSpace(s[|s| - 1]))
  }

  /** The first index at or after i that is not whitespace (|s| if
      there is none). */
  function SkipSpace(s: string, i: nat): (r: nat)
    requires i <= |s|
    ensures i <= r <= |s| && (r < |s| ==> !IsSpace(s[r]))
    ensures forall k :: i <= k < r ==> IsSpace(s[k])
    decreases |s| - i
  {
    if i < |s| && IsSpace(s[i]) then SkipSpace(s, i + 1) else i
  }

  /** The end of s[lo..e] once its trailing whitespace is dropped. */
  function SkipSpaceBack(s: string, lo: nat, e: nat): (r: nat)
    requires lo <= e <= |s|
    ensures lo <= r <= e && (lo < r ==> !IsSpace(s[r - 1]))
    ensures forall k :: r <= k < e ==> IsSpace(s[k])
    decreases e
  {
    if lo < e && IsSpace(s[e - 1]) then SkipSpaceBack(s, lo, e - 1) else e
  }

  /** Where the text that strip() keeps starts: after the leading
      whitespace. */
  function StripStart(s: string): (i: nat)
    ensures i <= |s|
  {
    SkipSpace(s, 0)
  }

  /** s.strip(): what is left has no whitespace at either end, is the piece
      of s after its leading whitespace, and is empty exactly when s is all
      whitespace. */
  function Strip(s: string): (r: string)
    ensures Stripped(r)
    ensures StripStart(s) + |r| <= |s| && r == s[StripStart(s)..StripStart(s) + |r|]
    ensures r == [] <==> Blank(s)
  {
    var a := SkipSpace(s, 0);
    s[a..SkipSpaceBack(s, a, |s|)]
  }

  /** A piece of a string that has no comma has no comma either. */
  lemma StripKeepsOut(s: string, c: char)
    requires c !in s
    ensures c !in Strip(s)
  {
    var r := Strip(s);
    var i := StripStart(s);
    forall k | 0 <= k < |r| ensures r[k] != c {
      assert r[k] == s[i + k];
    }
  }

  /** strip() removes exactly the whitespace padding around a stripped
      string. */
  lemma StripPadded(pre: string, x: string, post: string)
    requires Blank(pre) && Blank(post) && Stripped(x)
    ensures Strip(pre + x + post) == x
  {
    var s := pre + x + post;
    if x == [] {
      forall k | 0 <= k < |s| ensures IsSpace(s[k]) {
        if k < |pre| {
          assert s[k] == pre[k];
        } else {
          assert s[k] == post[k - |pre|];
        }
      }
    } else {
      var a := SkipSpace(s, 0);
      assert s[|pre|] == x[0];
      assert a == |pre|;
      var b := SkipSpaceBack(s, a, |s|);
      var e := |pre| + |x|;
      assert s[e - 1] == x[|x| - 1];
      assert b == e;
      assert s[a..b] == x;
    }
  }

  // ---------------------------------------------------------------------
  // int()

  predicate IsDigit(c: char) { '0' <= c <= '9' }

  /** The digits of a base-10 literal as int() accepts them: ASCII digits,
      with single underscores allowed between two digits. */
  predicate DigitRun(s: string)
  {
    |s| > 0 && IsDigit(s[0]) &&
    (|s| == 1 || if s[1] == '_' then DigitRun(s[2..]) else DigitRun(s[1..]))
  }

  /** A non-empty string of digits is a digit run. */
  lemma {:induction false} DigitsAreRun(s: string)
    requires |s| > 0 && forall k :: 0 <= k < |s| ==> IsDigit(s[k])
    ensures DigitRun(s)
  {
    if |s| > 1 {
      DigitsAreRun(s[1..]);
    }
  }

  /** The number the digits of s spell, underscores skipped. */
  function DigitsValue(s: string): nat
  {
    if s == [] then 0
    else if IsDigit(s[|s| - 1]) then 10 * DigitsValue(s[..|s| - 1]) + (s[|s| - 1] as int - '0' as int)
    else DigitsValue(s[..|s| - 1])
  }

  /** The value of a literal without surrounding whitespace: an optional
      sign, then a run of digits. */
  function LiteralValue(t: string): Option<int>
  {
    var signed := |t| > 0 && (t[0] == '-' || t[0] == '+');
    var digits := if signed then t[1..] else t;
    if !DigitRun(digits) then None
    else if signed && t[0] == '-' then Some(-(DigitsValue(digits) as int))
    else Some(DigitsValue(digits))
  }

  /** int(s) with base 10: surrounding whitespace is ignored, then an
      optional sign and a run of digits; anything else raises ValueError. */
  function ParseInt(s: string): Result<int>
  {
    match LiteralValue(Strip(s))
    case Some(v) => Success(v)
    case None => Failure("ValueError: invalid literal for int() with base 10: '" + s + "'")
  }

  function DigitChar(d: nat): (c: char)
    requires d < 10
    ensures IsDigit(c) && c as int - '0' as int == d
  {
    ('0' as int + d) as char
  }

  /** str(n) for a natural number: its decimal digits, most significant
      first. */
  function NatString(n: nat): (s: string)
    ensures |s| > 0 && forall k :: 0 <= k < |s| ==> IsDigit(s[k])
  {
    if n < 10 then [DigitChar(n)] else NatString(n / 10) + [DigitChar(n % 10)]
  }

  /** str(n). */
  function IntString(n: int): string
  {
    if n < 0 then "-" + NatString(-n) else NatString(n)
  }

  /** The digits of str(n) spell n. */
  lemma {:induction false} NatStringValue(n: nat)
    ensures DigitsValue(NatString(n)) == n
  {
    if n >= 10 {
      var s := NatString(n);
      NatStringValue(n / 10);
      assert s[..|s| - 1] == NatString(n / 10);
    }
  }

  /** The literal str(n) has the value n. */
  lemma IntStringValue(n: int)
    ensures Stripped(IntString(n)) && ',' !in IntString(n) && LiteralValue(IntString(n)) == Some(n)
  {
    var m := if n < 0 then -n else n;
    NatStringValue(m);
    SignedNumeral(n < 0, NatString(m));
    assert IntString(n) == (if n < 0 then "-" else "") + NatString(m);
  }

  /** A sign (or none) followed by plain digits is a stripped literal whose
      value is the digits' value with that sign, and has no comma. */
  lemma SignedNumeral(negative: bool, digits: string)
    requires |digits| > 0 && forall k :: 0 <= k < |digits| ==> IsDigit(digits[k])
    ensures var s := (if negative then "-" else "") + digits;
      Stripped(s) && ',' !in s &&
      LiteralValue(s) == Some(if negative then -(DigitsValue(digits) as int) else DigitsValue(digits))
  {
    DigitsAreRun(digits);
    var s := (if negative then "-" else "") + digits;
    if negative {
      assert s[1..] == digits;
      assert s[|s| - 1] == digits[|digits| - 1];
      forall k | 0 <= k < |s| ensures s[k] != ',' {
        if k > 0 {
          assert s[k] == digits[k - 1];
        }
      }
    } else {
      assert s == digits;
    }
  }

  /** int() reads back what str() writes, with any whitespace around it. */
  lemma ParseIntString(pre: string, n: int, post: string)
    requires Blank(pre) && Blank(post)
    ensures ParseInt(pre + IntString(n) + post) == Success(n)
  {
    IntStringValue(n);
    StripPadded(pre, IntString(n), post);
  }

  /** int() of a blank string, an empty one included, raises. */
  lemma ParseBlankFails(s: string)
    requires Blank(s)
    ensures ParseInt(s).Failure?
  {
  }

  // ---------------------------------------------------------------------
  // _inttuple and _stringlist

  /** The index of the first failure in the list, |results| when there is
      none. */
  function FirstFailure<T>(results: seq<Result<T>>): (k: nat)
    ensures k <= |results| && (k < |results| ==> results[k].Failure?)
    ensures forall j :: 0 <= j < k ==> results[j].Success?
  {
    if results == [] || results[0].Failure? then 0 else 1 + FirstFailure(results[1..])
  }

  /** The values of a list of results evaluated in order, as a list
      comprehension does: the first failure is raised and ends it. */
  function Collect<T>(results: seq<Result<T>>): (r: Result<seq<T>>)
    ensures r.Success? <==> forall k :: 0 <= k < |results| ==> results[k].Success?
    ensures r.Success? ==> |r.value| == |results| && forall k :: 0 <= k < |results| ==> results[k] == Success(r.value[k])
    ensures r.Failure? ==> FirstFailure(results) < |results| && r.error == results[FirstFailure(results)].error
  {
    if results == [] then Success([])
    else if results[0].Failure? then Failure(results[0].error)
    else
      var tail := Collect(results[1..]);
      if tail.Failure? then tail else Success([results[0].value] + tail.value)
  }

  /** int() of each field, in order. */
  function ParseFields(fields: seq<string>): (r: seq<Result<int>>)
    ensures |r| == |fields| && forall k :: 0 <= k < |r| ==> r[k] == ParseInt(fields[k])
  {
    seq(|fields|, k requires 0 <= k < |fields| => ParseInt(fields[k]))
  }

  /** _inttuple: no argument or a blank one is the empty tuple; otherwise
      one int per comma-separated field, in order, each what int() reads
      from the field; the first field int() rejects raises its error. */
  function IntTuple(arg: Option<string>): (r: Result<seq<int>>)
    ensures arg.None? || Blank(arg.value) ==> r == Success([])
    ensures arg.Some? && !Blank(arg.value) ==> var results := ParseFields(Split(arg.value, ','));
      (r.Success? ==> |r.value| == |results| && forall k :: 0 <= k < |results| ==> results[k] == Success(r.value[k])) &&
      (r.Failure? ==> var k := FirstFailure(results); k < |results| && r.error == results[k].error)
  {
    if arg.None? || Strip(arg.value) == [] then Success([])
    else Collect(ParseFields(Split(arg.value, ',')))
  }

  /** The numbers written as str() of each, comma-separated. */
  function FormatInts(xs: seq<int>): string
  {
    if xs == [] then [] else Join(IntStrings(xs), ',')
  }

  /** str() of each number. */
  function IntStrings(xs: seq<int>): (r: seq<string>)
    ensures |r| == |xs| && forall k :: 0 <= k < |xs| ==> r[k] == IntString(xs[k])
  {
    seq(|xs|, k requires 0 <= k < |xs| => IntString(xs[k]))
  }

  /** Results that all succeed collect to their values. */
  lemma CollectSuccesses<T>(results: seq<Result<T>>, xs: seq<T>)
    requires |results| == |xs| && forall k :: 0 <= k < |xs| ==> results[k] == Success(xs[k])
    ensures Collect(results) == Success(xs)
  {
    var r := Collect(results);
    assert r.Success?;
    assert r.value == xs;
  }

  /** str(n) is stripped, has no comma and int() reads it back. */
  lemma IntStringField(n: int)
    ensures |IntString(n)| > 0 && Stripped(IntString(n)) && ',' !in IntString(n)
    ensures ParseInt(IntString(n)) == Success(n)
  {
    IntStringValue(n);
    ParseIntString([], n, []);
    assert [] + IntString(n) + [] == IntString(n);
  }

  /** _inttuple reads back any tuple written with commas. */
  lemma IntTupleRoundTrip(xs: seq<int>)
    ensures IntTuple(Some(FormatInts(xs))) == Success(xs)
  {
    if xs != [] {
      var fields := IntStrings(xs);
      forall k | 0 <= k < |xs|
        ensures |fields[k]| > 0 && Stripped(fields[k]) && ',' !in fields[k]
        ensures ParseInt(fields[k]) == Success(xs[k])
      {
        IntStringField(xs[k]);
      }
      SplitJoin(fields, ',');
      CollectSuccesses(ParseFields(fields), xs);
      JoinStartsWith(fields, ',');
      var s := FormatInts(xs);
      assert !IsSpace(s[0]);
    }
  }

  /** A join starts with the first character of its first piece. */
  lemma {:induction false} JoinStartsWith(parts: seq<string>, sep: char)
    requires |parts| > 0 && |parts[0]| > 0
    ensures |Join(parts, sep)| > 0 && Join(parts, sep)[0] == parts[0][0]
  {
  }

  /** A trailing comma leaves an empty last field, which int() rejects, so
      _inttuple raises. */
  lemma TrailingCommaRaises(s: string)
    requires !Blank(s)
    ensures IntTuple(Some(s + ",")).Failure?
  {
    var parts := Split(s, ',');
    var k :| 0 <= k < |s| && !IsSpace(s[k]);
    assert (s + ",")[k] == s[k];
    SplitTrailing(s, ',');
    var results := ParseFields(parts + [[]]);
    ParseBlankFails([]);
    assert results[|parts|].Failure?;
  }

  /** A trailing separator adds one empty piece. */
  lemma SplitTrailing(s: string, sep: char)
    ensures Split(s + [sep], sep) == Split(s, sep) + [[]]
  {
    var parts := Split(s, sep);
    JoinSplit(s, sep);
    JoinTrailing(parts, sep);
    SplitJoin(parts + [[]], sep);
  }

  /** s.strip() for each field. */
  function StripAll(fields: seq<string>): (r: seq<string>)
    ensures |r| == |fields| && forall k :: 0 <= k < |r| ==> r[k] == Strip(fields[k])
  {
    seq(|fields|, k requires 0 <= k < |fields| => Strip(fields[k]))
  }

  /** filter(lambda x: x, xs): the non-empty strings, in order. */
  function NonEmpty(xs: seq<string>): (r: seq<string>)
    ensures forall x :: x in r <==> x in xs && x != []
    ensures forall k :: 0 <= k < |r| ==> r[k] != [] && r[k] in xs
    ensures (forall k :: 0 <= k < |xs| ==> xs[k] != []) ==> r == xs
  {
    if xs == [] then []
    else if xs[0] == [] then NonEmpty(xs[1..])
    else assert xs == [xs[0]] + xs[1..]; [xs[0]] + NonEmpty(xs[1..])
  }

  /** filter distributes over concatenation: the non-empty strings of
      xs + ys are those of xs followed by those of ys. Together with
      NonEmptyOne this fixes the order and the repeats that filter keeps. */
  lemma {:induction false} NonEmptyAppend(xs: seq<string>, ys: seq<string>)
    ensures NonEmpty(xs + ys) == NonEmpty(xs) + NonEmpty(ys)
  {
    if xs == [] {
      assert xs + ys == ys;
    } else {
      assert (xs + ys)[0] == xs[0];
      assert (xs + ys)[1..] == xs[1..] + ys;
      NonEmptyAppend(xs[1..], ys);
    }
  }

  /** On a single string, filter keeps it exactly when it is non-empty. */
  lemma NonEmptyOne(x: string)
    ensures NonEmpty([x]) == if x == [] then [] else [x]
  {
    assert [x][1..] == [];
  }

  /** A list with nothing but empty strings filters to nothing. */
  lemma NonEmptyOfEmpties(xs: seq<string>)
    requires forall k :: 0 <= k < |xs| ==> xs[k] == []
    ensures NonEmpty(xs) == []
  {
  }

  /** _stringlist: no argument or a blank one is the empty list; otherwise
      the comma-separated fields, stripped, without the empty ones. Every
      element is non-empty, stripped and free of commas. */
  function StringList(arg: Option<string>): (r: seq<string>)
    ensures arg.None? || Blank(arg.value) ==> r == []
    ensures forall k :: 0 <= k < |r| ==> r[k] != [] && Stripped(r[k]) && ',' !in r[k]
  {
    if arg.None? || Strip(arg.value) == [] then []
    else
      StrippedFields(arg.value);
      NonEmpty(StripAll(Split(arg.value, ',')))
  }

  /** The stripped fields of a string are stripped and free of commas. */
  lemma StrippedFields(s: string)
    ensures var stripped := StripAll(Split(s, ','));
      forall j :: 0 <= j < |stripped| ==> Stripped(stripped[j]) && ',' !in stripped[j]
  {
    var fields := Split(s, ',');
    forall j | 0 <= j < |fields| ensures ',' !in Strip(fields[j]) {
      StripKeepsOut(fields[j], ',');
    }
  }

  /** A blank join has blank pieces. */
  lemma {:induction false} BlankJoin(parts: seq<string>, sep: char)
    requires |parts| > 0 && Blank(Join(parts, sep))
    ensures forall k :: 0 <= k < |parts| ==> Blank(parts[k])
  {
    if |parts| > 1 {
      var s := Join(parts, sep);
      var rest := Join(parts[1..], sep);
      assert s == parts[0] + ([sep] + rest);
      forall i | 0 <= i < |parts[0]| ensures IsSpace(parts[0][i]) {
        assert s[i] == parts[0][i];
      }
      forall i | 0 <= i < |rest| ensures IsSpace(rest[i]) {
        assert s[|parts[0]| + 1 + i] == rest[i];
      }
      BlankJoin(parts[1..], sep);
      forall k | 1 <= k < |parts| ensures Blank(parts[k]) {
        assert parts[k] == parts[1..][k - 1];
      }
    }
  }

  /** _stringlist on any comma-written list of fields, padded and empty
      fields included: the fields, each stripped, in their order, with the
      empty ones left out. */
  lemma StringListOfFields(fields: seq<string>)
    requires |fields| > 0 && forall k :: 0 <= k < |fields| ==> ',' !in fields[k]
    ensures StringList(Some(Join(fields, ','))) == NonEmpty(StripAll(fields))
  {
    var s := Join(fields, ',');
    SplitJoin(fields, ',');
    if Strip(s) == [] {
      BlankJoin(fields, ',');
      NonEmptyOfEmpties(StripAll(fields));
    }
  }

  /** The list " a.mat , ,b.mat " reads as ["a.mat", "b.mat"]: the padding
      goes, the blank field is dropped and the order is kept. */
  lemma StringListExample()
    ensures StringList(Some(" a.mat , ,b.mat ")) == ["a.mat", "b.mat"]
  {
    var fields := [" a.mat ", " ", "b.mat "];
    ExampleFields();
    StringListOfFields(fields);
    ExampleStripped();
    NonEmptyAppend(["a.mat"] + [[]], ["b.mat"]);
    NonEmptyAppend(["a.mat"], [[]]);
    NonEmptyOne("a.mat");
    NonEmptyOne([]);
    NonEmptyOne("b.mat");
  }

  /** The example is the three fields joined with commas. */
  lemma ExampleFields()
    ensures Join([" a.mat ", " ", "b.mat "], ',') == " a.mat , ,b.mat "
  {
    var fields := [" a.mat ", " ", "b.mat "];
    assert fields[1..][1..] == ["b.mat "];
    assert Join(fields[1..], ',') == " " + [','] + "b.mat ";
  }

  /** The example's fields, stripped. */
  lemma ExampleStripped()
    ensures StripAll([" a.mat ", " ", "b.mat "]) == ["a.mat"] + [[]] + ["b.mat"]
  {
    ExampleFieldsStripped();
    var fields := [" a.mat ", " ", "b.mat "];
    var r := StripAll(fields);
    assert r[0] == Strip(fields[0]) && r[1] == Strip(fields[1]) && r[2] == Strip(fields[2]);
  }

  /** Each field of the example, stripped on its own. */
  lemma ExampleFieldsStripped()
    ensures Strip(" a.mat ") == "a.mat" && Strip(" ") == [] && Strip("b.mat ") == "b.mat"
  {
    StripPadded(" ", "a.mat", " ");
    assert " " + "a.mat" + " " == " a.mat ";
    assert Blank(" ");
    StripPadded([], "b.mat", " ");
    assert [] + "b.mat" + " " == "b.mat ";
  }

  /** The list written with commas between its elements. */
  function FormatList(xs: seq<string>): string
  {
    if xs == [] then [] else Join(xs, ',')
  }

  /** _stringlist reads back any list of non-empty, stripped, comma-free
      strings written with commas. */
  lemma StringListRoundTrip(xs: seq<string>)
    requires forall k :: 0 <= k < |xs| ==> xs[k] != [] && Stripped(xs[k]) && ',' !in xs[k]
    ensures StringList(Some(FormatList(xs))) == xs
  {
    if xs != [] {
      SplitJoin(xs, ',');
      JoinStartsWith(xs, ',');
      forall k | 0 <= k < |xs| ensures Strip(xs[k]) == xs[k] {
        StripPadded([], xs[k], []);
        assert [] + xs[k] + [] == xs[k];
      }
      assert StripAll(xs) == xs;
    }
  }

  // ---------------------------------------------------------------------
  // _run_apply_transform

  /** Python truthiness of an optional string or tuple: given and
      non-empty. */
  predicate Given<T>(o: Option<seq<T>>)
  {
    o.Some? && |o.value| > 0
  }

  /** The arguments `_run_apply_transform` reads, as the parsers leave them
      (None for an option that was not given). Spacings and block sizes
      are in x, y, z order on the command line. */
  datatype Args = Args(
    fixedSubpath: Option<string>,
    movingSubpath: Option<string>,
    outputSubpath: Option<string>,
    fixedSpacing: Option<seq<nat>>,
    movingSpacing: Option<seq<nat>>,
    transformSpacing: Option<seq<nat>>,
    affineTransformations: Option<seq<string>>,
    output: Option<string>,
    outputChunkSize: int,
    outputBlocksize: Option<seq<int>>)

  /** What the script reads from an image's metadata: its voxel spacing in
      z, y, x order (None when the container records none), its number of
      axes, and whether it holds data. */
  datatype ImageInfo = ImageInfo(spacing: Option<seq<nat>>, ndim: nat, hasData: bool)

  /** The call to distributed_apply_transform: the affine files in order,
      whether the displacement field follows them, and the per-transform
      spacing tuple. */
  datatype TransformCall = TransformCall(affineFiles: seq<string>, withField: bool, transformSpacing: seq<seq<nat>>)

  /** Everything the script settles before it writes: the subpaths, the
      spacings, the output block size, and the call when --output is
      given. */
  datatype ApplyPlan = ApplyPlan(
    movingSubpath: Option<string>,
    outputSubpath: Option<string>,
    fixedSpacing: Option<seq<nat>>,
    movingSpacing: Option<seq<nat>>,
    fieldSpacing: seq<nat>,
    outputBlocks: seq<int>,
    call: Option<TransformCall>)

  const NotSubscriptable := "TypeError: 'NoneType' object is not subscriptable"

  /** None of the first k options is given. */
  predicate NoneGivenBefore(options: seq<Option<string>>, k: int)
  {
    forall j :: 0 <= j < k && j < |options| ==> !Given(options[j])
  }

  /** The subpath default chain: the first given option, most specific
      first; when none is given, the last option as it is. */
  function FirstGiven(options: seq<Option<string>>): (r: Option<string>)
    requires |options| > 0
    ensures forall k :: 0 <= k < |options| && Given(options[k]) && NoneGivenBefore(options, k) ==> r == options[k]
    ensures NoneGivenBefore(options, |options|) ==> r == options[|options| - 1]
  {
    if |options| == 1 || Given(options[0]) then options[0]
    else
      var r := FirstGiven(options[1..]);
      assert forall k :: 1 <= k < |options| && NoneGivenBefore(options, k) ==> NoneGivenBefore(options[1..], k - 1);
      r
  }

  /** Reversing twice gives the sequence back. */
  lemma ReverseReverse<T>(s: seq<T>)
    ensures Reverse(Reverse(s)) == s
  {
  }

  /** The fixed image's spacing: --fixed-spacing when given, turned from
      x, y, z into z, y, x order, else the image's own. */
  function FixedSpacing(args: Args, fix: ImageInfo): (r: Option<seq<nat>>)
    ensures Given(args.fixedSpacing) ==> r.Some? && Reverse(r.value) == args.fixedSpacing.value
    ensures !Given(args.fixedSpacing) ==> r == fix.spacing
  {
    if Given(args.fixedSpacing) then
      ReverseReverse(args.fixedSpacing.value);
      Some(Reverse(args.fixedSpacing.value))
    else fix.spacing
  }

  /** The moving image's spacing: --moving-spacing when given, in z, y, x
      order; otherwise the fixed image's spacing when --fixed-spacing was
      given; otherwise the image's own. */
  function MovingSpacing(args: Args, fix: ImageInfo, mov: ImageInfo): (r: Option<seq<nat>>)
    ensures Given(args.movingSpacing) ==> r.Some? && Reverse(r.value) == args.movingSpacing.value
    ensures !Given(args.movingSpacing) && Given(args.fixedSpacing) ==> r == FixedSpacing(args, fix)
    ensures !Given(args.movingSpacing) && !Given(args.fixedSpacing) ==> r == mov.spacing
  {
    if Given(args.movingSpacing) then
      ReverseReverse(args.movingSpacing.value);
      Some(Reverse(args.movingSpacing.value))
    else if Given(args.fixedSpacing) then FixedSpacing(args, fix)
    else mov.spacing
  }

  /** The displacement field's spacing, as the script computes it: when the
      field has a spacing at all (its own, or --transform-spacing), it is
      replaced by the fixed image's spacing with a 1 appended for the vector
      axis. No spacing at all, or no fixed spacing to copy, raises. */
  function FieldSpacing(args: Args, fixSpacing: Option<seq<nat>>, deform: ImageInfo): (r: Result<seq<nat>>)
    ensures r.Failure? <==> fixSpacing.None? || (!Given(args.transformSpacing) && deform.spacing.None?)
  {
    var given := if Given(args.transformSpacing) then Some(Reverse([1] + args.transformSpacing.value)) else deform.spacing;
    if given.None? || fixSpacing.None? then Failure(NotSubscriptable)
    else Success(Reverse([1] + Reverse(fixSpacing.value)))
  }

  /** As written, --transform-spacing never reaches the field: whatever it
      says, the field gets the fixed image's spacing. */
  lemma {:induction false} FieldSpacingIgnoresArgument(args: Args, fixSpacing: Option<seq<nat>>, deform: ImageInfo)
    requires FieldSpacing(args, fixSpacing, deform).Success?
    ensures FieldSpacing(args, fixSpacing, deform).value == fixSpacing.value + [1]
  {
    var f := fixSpacing.value;
    var r := FieldSpacing(args, fixSpacing, deform).value;
    assert |r| == |f| + 1;
    forall a | 0 <= a < |r| ensures r[a] == (f + [1])[a] {
      if a < |f| {
        assert Reverse([1] + Reverse(f))[a] == ([1] + Reverse(f))[|f| - a];
      }
    }
  }

  /** The field's spacing as evidently intended (`is None` on line 139):
      --transform-spacing wins, then the field's own spacing, then the
      fixed image's spacing with a 1 for the vector axis. */
  function IntendedFieldSpacing(args: Args, fixSpacing: Option<seq<nat>>, deform: ImageInfo): (r: Result<seq<nat>>)
    ensures r.Failure? <==> !Given(args.transformSpacing) && deform.spacing.None? && fixSpacing.None?
  {
    if Given(args.transformSpacing) then Success(Reverse([1] + args.transformSpacing.value))
    else if deform.spacing.Some? then Success(deform.spacing.value)
    else if fixSpacing.None? then Failure(NotSubscriptable)
    else Success(Reverse([1] + Reverse(fixSpacing.value)))
  }

  /** Intended: a given --transform-spacing is what the field's spatial
      axes get, in z, y, x order, followed by the 1 of the vector axis. */
  lemma {:induction false} IntendedFieldSpacingUsesArgument(args: Args, fixSpacing: Option<seq<nat>>, deform: ImageInfo)
    requires Given(args.transformSpacing)
    ensures var r := IntendedFieldSpacing(args, fixSpacing, deform);
      r.Success? && r.value == Reverse(args.transformSpacing.value) + [1]
  {
    var ts := args.transformSpacing.value;
    var r := IntendedFieldSpacing(args, fixSpacing, deform).value;
    assert |r| == |ts| + 1;
    forall a | 0 <= a < |r| ensures r[a] == (Reverse(ts) + [1])[a] {
      if a < |ts| {
        assert r[a] == ([1] + ts)[|ts| - a];
      }
    }
  }

  /** An invocation where the two disagree: --transform-spacing 2,2,2 with a fixed
      spacing of 1,1,1 gives the field 1,1,1 as written, 2,2,2 as
      intended. */
  lemma TransformSpacingDiscarded(args: Args, deform: ImageInfo)
    requires args.transformSpacing == Some([2, 2, 2])
    ensures FieldSpacing(args, Some([1, 1, 1]), deform) == Success([1, 1, 1, 1])
    ensures IntendedFieldSpacing(args, Some([1, 1, 1]), deform) == Success([2, 2, 2, 1])
  {
    FieldSpacingIgnoresArgument(args, Some([1, 1, 1]), deform);
    IntendedFieldSpacingUsesArgument(args, Some([1, 1, 1]), deform);
    var rev := Reverse(args.transformSpacing.value);
    assert rev[0] == 2 && rev[1] == 2 && rev[2] == 2;
    assert rev == [2, 2, 2];
    assert [1, 1, 1] + [1] == [1, 1, 1, 1];
    assert [2, 2, 2] + [1] == [2, 2, 2, 1];
  }

  /** The output block size: --output-blocksize when given, in z, y, x
      order; otherwise the chunk size on every axis of the fixed image. */
  function OutputBlocks(blocksize: Option<seq<int>>, chunk: int, ndim: nat): (r: seq<int>)
    ensures Given(blocksize) ==> Reverse(r) == blocksize.value
    ensures !Given(blocksize) ==> |r| == ndim && forall a :: 0 <= a < ndim ==> r[a] == chunk
  {
    if Given(blocksize) then
      ReverseReverse(blocksize.value);
      Reverse(blocksize.value)
    else seq(ndim, _ => chunk)
  }

  /** The transform spacing tuple as the script builds it: one entry of
      ones for all the affine files together, then the field's spatial
      spacing when there is a field. */
  function TransformSpacing(affines: bool, movNdim: nat, field: Option<seq<nat>>): (r: seq<seq<nat>>)
    ensures |r| == (if affines then 1 else 0) + (if field.Some? then 1 else 0)
    ensures affines ==> r[0] == Repeat(1, movNdim)
    ensures field.Some? ==> r[|r| - 1] == field.value
  {
    (if affines then [Repeat(1, movNdim)] else []) + (if field.Some? then [field.value] else [])
  }

  /** The affine matrices, in file order, as entries of the transform list. */
  function Affines<V>(matrices: seq<seq<seq<int>>>): (r: seq<Transform<V>>)
    ensures |r| == |matrices| && forall i :: 0 <= i < |r| ==> r[i] == Affine(matrices[i])
  {
    seq(|matrices|, i requires 0 <= i < |matrices| => Affine(matrices[i]))
  }

  /** As written, two or more affine files and a field leave the field
      without a spacing entry: the tuple has two entries and the field is
      not among the first two, so distributed_apply_transform raises
      IndexError for every block. */
  lemma {:induction false} TwoAffinesLoseFieldSpacing<V>(matrices: seq<seq<seq<int>>>, field: View<V>, movNdim: nat,
                                                         fieldSpacing: seq<nat>, fixSpacing: seq<nat>)
    requires |matrices| >= 2
    ensures var transforms := Affines<V>(matrices) + [Field(field)];
      MissingSpacing(transforms, SpacingList(PerTransform(TransformSpacing(true, movNdim, Some(fieldSpacing))), fixSpacing, |transforms|))
  {
    var transforms := Affines<V>(matrices) + [Field(field)];
    var spacings := SpacingList(PerTransform(TransformSpacing(true, movNdim, Some(fieldSpacing))), fixSpacing, |transforms|);
    assert transforms[|matrices|].Field? && |matrices| >= |spacings|;
  }

  /** The tuple as evidently intended: one entry of ones per affine file,
      then the field's spacing. */
  function IntendedTransformSpacing(affines: nat, movNdim: nat, field: Option<seq<nat>>): (r: seq<seq<nat>>)
    ensures |r| == affines + (if field.Some? then 1 else 0)
    ensures forall t :: 0 <= t < affines ==> r[t] == Repeat(1, movNdim)
    ensures field.Some? ==> r[|r| - 1] == field.value
  {
    seq(affines, _ => Repeat(1, movNdim)) + (if field.Some? then [field.value] else [])
  }

  /** Intended: every transform, the field included, has its spacing
      entry, whatever the number of affine files. */
  lemma {:induction false} IntendedSpacingCoversAll<V>(matrices: seq<seq<seq<int>>>, field: View<V>, movNdim: nat,
                                                       fieldSpacing: seq<nat>, fixSpacing: seq<nat>)
    ensures var transforms := Affines<V>(matrices) + [Field(field)];
      var spacings := SpacingList(PerTransform(IntendedTransformSpacing(|matrices|, movNdim, Some(fieldSpacing))), fixSpacing, |transforms|);
      |spacings| == |transforms| && !MissingSpacing(transforms, spacings) && spacings[|matrices|] == fieldSpacing
  {
  }

  /** numpy's s[:stop]. */
  function SliceTo(s: seq<nat>, stop: int): (r: seq<nat>)
    ensures r == s[..ClipBound(stop, |s|)]
  {
    s[..ClipBound(stop, |s|)]
  }

  /** The --output branch: the affine files in order with one spacing entry
      of ones, then the field, when it has data, with its spacing cut to
      the spatial axes. */
  method PlanCall(affineTransformations: Option<seq<string>>, mov: ImageInfo, deform: ImageInfo, fieldSpacing: seq<nat>)
    returns (c: TransformCall)
    ensures c.affineFiles == (if Given(affineTransformations) then affineTransformations.value else [])
    ensures c.withField == deform.hasData
    ensures c.transformSpacing == TransformSpacing(Given(affineTransformations), mov.ndim,
      if deform.hasData then Some(SliceTo(fieldSpacing, deform.ndim - 1)) else None)
  {
    var transformSpacing: seq<seq<nat>> := [];
    var affineFiles: seq<string> := [];
    if Given(affineTransformations) {
      affineFiles := affineTransformations.value;
      transformSpacing := transformSpacing + [Repeat(1, mov.ndim)];
    }
    if deform.hasData {
      transformSpacing := transformSpacing + [fieldSpacing[..ClipBound(deform.ndim - 1, |fieldSpacing|)]];
    }
    c := TransformCall(affineFiles, deform.hasData, transformSpacing);
  }

  /** _run_apply_transform up to the call: the subpath defaults, the
      spacings, the field spacing (which may raise), the output block size
      and, when --output is given, the transform list and its spacing
      tuple. */
  method RunApplyTransform(args: Args, fix: ImageInfo, mov: ImageInfo, deform: ImageInfo) returns (r: Result<ApplyPlan>)
    ensures r.Failure? <==> FieldSpacing(args, FixedSpacing(args, fix), deform).Failure?
    ensures r.Failure? ==> r.error == NotSubscriptable
    ensures r.Success? ==>
      var p := r.value;
      p.movingSubpath == FirstGiven([args.movingSubpath, args.fixedSubpath]) &&
      p.outputSubpath == FirstGiven([args.outputSubpath, args.movingSubpath, args.fixedSubpath]) &&
      p.fixedSpacing == FixedSpacing(args, fix) && p.movingSpacing == MovingSpacing(args, fix, mov) &&
      p.fieldSpacing == FieldSpacing(args, FixedSpacing(args, fix), deform).value &&
      p.outputBlocks == OutputBlocks(args.outputBlocksize, args.outputChunkSize, fix.ndim) &&
      (p.call.Some? <==> Given(args.output))
    ensures r.Success? && r.value.call.Some? ==>
      var c := r.value.call.value;
      c.affineFiles == (if Given(args.affineTransformations) then args.affineTransformations.value else []) &&
      c.withField == deform.hasData &&
      c.transformSpacing == TransformSpacing(Given(args.affineTransformations), mov.ndim,
        if deform.hasData then Some(SliceTo(r.value.fieldSpacing, deform.ndim - 1)) else None)
  {
    var fixSubpath := args.fixedSubpath;
    var movSubpath := if Given(args.movingSubpath) then args.movingSubpath else fixSubpath;
    var outSubpath := if Given(args.outputSubpath) then args.outputSubpath else movSubpath;

    var fixSpacing := fix.spacing;
    var movSpacing := mov.spacing;
    if Given(args.fixedSpacing) {
      fixSpacing := Some(Reverse(args.fixedSpacing.value));
    }
    if Given(args.movingSpacing) {
      movSpacing := Some(Reverse(args.movingSpacing.value));
    } else if Given(args.fixedSpacing) {
      movSpacing := fixSpacing;
    }

    var fieldSpacing := deform.spacing;
    if Given(args.transformSpacing) {
      fieldSpacing := Some(Reverse([1] + args.transformSpacing.value));
    }
    if fieldSpacing.Some? {
      if fixSpacing.None? {
        return Failure(NotSubscriptable);
      }
      fieldSpacing := Some(Reverse([1] + Reverse(fixSpacing.value)));
    }
    if fieldSpacing.None? {
      return Failure(NotSubscriptable);
    }

    var outputBlocks: seq<int>;
    if Given(args.outputBlocksize) {
      outputBlocks := Reverse(args.outputBlocksize.value);
    } else {
      outputBlocks := seq(fix.ndim, _ => args.outputChunkSize);
    }

    var call: Option<TransformCall> := None;
    if Given(args.output) {
      var c := PlanCall(args.affineTransformations, mov, deform, fieldSpacing.value);
      call := Some(c);
    }
    r := Success(ApplyPlan(movSubpath, outSubpath, fixSpacing, movSpacing, fieldSpacing.value, outputBlocks, call));
  }
}
