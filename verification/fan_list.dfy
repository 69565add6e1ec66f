/**
 * `parseFanList`, the parser of the `-fans "0,1"` argument, with the pieces
 * of Go's standard library it relies on: `strings.TrimSpace`,
 * `strings.Split` and `strconv.Atoi`. Strings are sequences of characters
 * (code points).
 */
module FanList {
  import opened Wrappers

  // ---------- strings.TrimSpace ----------

  /**
   * Go's `unicode.IsSpace`: tab, line feed, vertical tab, form feed, carriage
   * return, space, U+0085, U+00A0, U+1680, U+2000 to U+200A, U+2028, U+2029,
   * U+202F, U+205F and U+3000.
   */
  predicate IsSpace(c: char) {
    var k := c as int;
    || (0x09 <= k <= 0x0D) || k == 0x20 || k == 0x85 || k == 0xA0 || k == 0x1680
    || (0x2000 <= k <= 0x200A) || k == 0x2028 || k == 0x2029 || k == 0x202F
    || k == 0x205F || k == 0x3000
  }

  /** The same set, character by character, as Go's `unicode` package lists it. */
  const GoSpaceTable: set<char> := {
    '\t', '\n', '\U{0B}', '\U{0C}', '\r', ' ', '\U{85}', '\U{A0}', '\U{1680}',
    '\U{2000}', '\U{2001}', '\U{2002}', '\U{2003}', '\U{2004}', '\U{2005}',
    '\U{2006}', '\U{2007}', '\U{2008}', '\U{2009}', '\U{200A}',
    '\U{2028}', '\U{2029}', '\U{202F}', '\U{205F}', '\U{3000}'
  }

  /** The range form of `IsSpace` accepts exactly the listed characters. */
  lemma IsSpaceMatchesTable(c: char)
    ensures IsSpace(c) <==> c in GoSpaceTable
  {
  }

  predicate AllSpace(s: string) {
    forall i :: 0 <= i < |s| ==> IsSpace(s[i])
  }

  /** The first index in `[lo, hi)` of a non-space character of `s`, or `hi` when there is none. */
  function TrimStart(s: string, lo: int, hi: int): (a: int)
    requires 0 <= lo <= hi <= |s|
    ensures lo <= a <= hi
    ensures forall i :: lo <= i < a ==> IsSpace(s[i])
    ensures a < hi ==> !IsSpace(s[a])
    decreases hi - lo
  {
    if lo == hi || !IsSpace(s[lo]) then lo else TrimStart(s, lo + 1, hi)
  }

  /** One past the last index in `[lo, hi)` of a non-space character of `s`, or `lo` when there is none. */
  function TrimEnd(s: string, lo: int, hi: int): (b: int)
    requires 0 <= lo <= hi <= |s|
    ensures lo <= b <= hi
    ensures forall i :: b <= i < hi ==> IsSpace(s[i])
    ensures lo < b ==> !IsSpace(s[b - 1])
    decreases hi - lo
  {
    if lo == hi || !IsSpace(s[hi - 1]) then hi else TrimEnd(s, lo, hi - 1)
  }

  /** The cut points of `TrimSpace`: white space before `a` and from `b`, none at `a` or just before `b`. */
  predicate TrimmedAt(s: string, a: int, b: int) {
    && 0 <= a <= b <= |s|
    && (forall i :: 0 <= i < a ==> IsSpace(s[i]))
    && (forall i :: b <= i < |s| ==> IsSpace(s[i]))
    && (a < b ==> !IsSpace(s[a]) && !IsSpace(s[b - 1]))
  }

  /**
   * `strings.TrimSpace`: `s` without the white space at either end. The
   * result is empty exactly for all-space input, and otherwise starts and
   * ends with a non-space character.
   */
  function TrimSpace(s: string): (r: string)
    ensures |r| > 0 ==> !IsSpace(r[0]) && !IsSpace(r[|r| - 1])
    ensures |r| == 0 <==> AllSpace(s)
  {
    var a := TrimStart(s, 0, |s|);
    var b := TrimEnd(s, a, |s|);
    assert a < |s| ==> a < b;
    assert a == |s| ==> AllSpace(s);
    s[a..b]
  }

  /** `TrimSpace` cuts only white space off the ends of `s`. */
  lemma TrimSpaceIsMiddle(s: string)
    ensures exists a, b :: TrimmedAt(s, a, b) && TrimSpace(s) == s[a..b]
  {
    var a := TrimStart(s, 0, |s|);
    var b := TrimEnd(s, a, |s|);
    assert a < |s| ==> a < b;
    assert TrimmedAt(s, a, b) && TrimSpace(s) == s[a..b];
  }

  /** A string without white space at either end is its own trim. */
  lemma TrimSpaceOfTrimmed(s: string)
    requires |s| > 0 ==> !IsSpace(s[0]) && !IsSpace(s[|s| - 1])
    ensures TrimSpace(s) == s
  {
    assert s[0..|s|] == s;
  }

  // ---------- strings.Split ----------

  /** `strings.Split(s, sep)` for a one-character separator: the pieces between separators, empty ones included. */
  function Split(s: string, sep: char): (parts: seq<string>)
    ensures |parts| >= 1
    ensures forall i :: 0 <= i < |parts| ==> sep !in parts[i]
  {
    if |s| == 0 then [""]
    else if s[0] == sep then [""] + Split(s[1..], sep)
    else
      var rest := Split(s[1..], sep);
      [[s[0]] + rest[0]] + rest[1..]
  }

  /** `strings.Join(parts, sep)`. */
  function Join(parts: seq<string>, sep: char): string
    requires |parts| >= 1
  {
    if |parts| == 1 then parts[0] else parts[0] + [sep] + Join(parts[1..], sep)
  }

  /** Splitting loses nothing: joining the pieces back gives the string. */
  lemma {:induction false} JoinSplit(s: string, sep: char)
    ensures Join(Split(s, sep), sep) == s
  {
    if |s| == 0 {
    } else if s[0] == sep {
      JoinSplit(s[1..], sep);
      assert Split(s, sep)[1..] == Split(s[1..], sep);
      assert s == [sep] + s[1..];
    } else {
      var rest := Split(s[1..], sep);
      JoinSplit(s[1..], sep);
      var parts := Split(s, sep);
      if |rest| == 1 {
        assert parts == [[s[0]] + rest[0]];
        assert s == [s[0]] + s[1..];
      } else {
        assert parts[1..] == rest[1..];
        assert Join(rest, sep) == rest[0] + [sep] + Join(rest[1..], sep);
        assert s == [s[0]] + s[1..];
      }
    }
  }

  /** Joining pieces that do not contain the separator and splitting again gives the pieces back. */
  /** Dropping the first character of a join drops it from the first piece. */
  lemma JoinDropFirst(parts: seq<string>, sep: char)
    requires |parts| >= 1 && |parts[0]| > 0
    ensures Join(parts, sep)[0] == parts[0][0]
    ensures Join(parts, sep)[1..] == Join([parts[0][1..]] + parts[1..], sep)
  {
    var p := parts[0];
    var shorter := [p[1..]] + parts[1..];
    var j := Join(parts, sep);
    if |parts| == 1 {
      assert j == p;
    } else {
      assert shorter[1..] == parts[1..];
      assert j == p + [sep] + Join(parts[1..], sep);
      assert j[1..] == p[1..] + [sep] + Join(parts[1..], sep);
    }
  }

  lemma {:induction false} SplitJoin(parts: seq<string>, sep: char)
    requires |parts| >= 1
    requires forall i :: 0 <= i < |parts| ==> sep !in parts[i]
    ensures Split(Join(parts, sep), sep) == parts
    decreases |parts|, |parts[0]|
  {
    var p := parts[0];
    if |p| == 0 {
      if |parts| == 1 {
      } else {
        SplitJoin(parts[1..], sep);
        var j := Join(parts, sep);
        assert j == [sep] + Join(parts[1..], sep);
        assert j[1..] == Join(parts[1..], sep);
        assert parts == [p] + parts[1..];
      }
    } else {
      var shorter := [p[1..]] + parts[1..];
      assert sep !in p[1..] by {
        assert forall c :: c in p[1..] ==> c in p;
      }
      assert forall i :: 1 <= i < |shorter| ==> shorter[i] == parts[i];
      SplitJoin(shorter, sep);
      JoinDropFirst(parts, sep);
      assert [[p[0]] + p[1..]] + parts[1..] == parts by {
        assert [p[0]] + p[1..] == p;
      }
    }
  }

  // ---------- strconv.Atoi ----------

  const MinInt64: int := -0x8000_0000_0000_0000
  const MaxInt64: int := 0x7FFF_FFFF_FFFF_FFFF

  predicate IsDigit(c: char) {
    '0' <= c <= '9'
  }

  predicate AllDigits(s: string) {
    forall i :: 0 <= i < |s| ==> IsDigit(s[i])
  }

  /** The value of a string of decimal digits (the empty string counts as 0). */
  function DecimalValue(ds: string): nat
    requires AllDigits(ds)
  {
    if |ds| == 0 then 0
    else DecimalValue(ds[..|ds| - 1]) * 10 + (ds[|ds| - 1] as int - '0' as int)
  }

  /**
   * `strconv.Atoi`: an optional `+` or `-` followed by at least one decimal
   * digit, whose value fits Go's 64-bit `int`; anything else is an error.
   */
  function Atoi(s: string): (r: Option<int>)
    ensures r.Some? <==>
      && |s| > 0
      && var ds := if s[0] == '-' || s[0] == '+' then s[1..] else s;
      && |ds| > 0 && AllDigits(ds)
      && var v: int := DecimalValue(ds);
      && MinInt64 <= (if s[0] == '-' then -v else v) <= MaxInt64
    ensures r.Some? ==>
      var ds := if s[0] == '-' || s[0] == '+' then s[1..] else s;
      r.value == (if s[0] == '-' then -(DecimalValue(ds) as int) else DecimalValue(ds))
    ensures r.Some? ==> MinInt64 <= r.value <= MaxInt64
    ensures r.Some? && r.value < 0 ==> s[0] == '-'
  {
    if |s| == 0 then None
    else
      var ds := if s[0] == '-' || s[0] == '+' then s[1..] else s;
      if |ds| == 0 || !AllDigits(ds) then None
      else
        var v: int := DecimalValue(ds);
        var n := if s[0] == '-' then -v else v;
        if n < MinInt64 || n > MaxInt64 then None else Some(n)
  }

  /** Leading zeros add nothing to a decimal value. */
  lemma {:induction false} DecimalValueLeadingZeros(zeros: string, ds: string)
    requires forall i :: 0 <= i < |zeros| ==> zeros[i] == '0'
    requires AllDigits(ds)
    ensures AllDigits(zeros + ds)
    ensures DecimalValue(zeros + ds) == DecimalValue(ds)
    decreases |zeros| + |ds|
  {
    var s := zeros + ds;
    if |ds| == 0 {
      assert s == zeros;
      if |zeros| > 0 {
        DecimalValueLeadingZeros(zeros[..|zeros| - 1], []);
        assert zeros[..|zeros| - 1] + [] == s[..|s| - 1];
      }
    } else {
      DecimalValueLeadingZeros(zeros, ds[..|ds| - 1]);
      assert s[..|s| - 1] == zeros + ds[..|ds| - 1];
      assert s[|s| - 1] == ds[|ds| - 1];
    }
  }

  /** An unsigned run of digits reads as its decimal value. */
  lemma AtoiUnsigned(z: string)
    requires |z| > 0 && AllDigits(z) && DecimalValue(z) <= MaxInt64
    ensures Atoi(z) == Some(DecimalValue(z))
  {
    assert IsDigit(z[0]);
  }

  /** A `+` sign does not change the value. */
  lemma AtoiPlus(z: string)
    requires |z| > 0 && AllDigits(z) && DecimalValue(z) <= MaxInt64
    ensures Atoi("+" + z) == Some(DecimalValue(z))
  {
    assert ("+" + z)[1..] == z;
  }

  /** A `-` sign negates the value. */
  lemma AtoiMinus(z: string)
    requires |z| > 0 && AllDigits(z) && DecimalValue(z) <= MaxInt64
    ensures Atoi("-" + z) == Some(-(DecimalValue(z) as int))
  {
    assert ("-" + z)[1..] == z;
  }

  /**
   * A `+` sign and leading zeros do not change what `Atoi` reads, and a `-`
   * sign negates it: `"+007"` reads as 7 and `"-0"` as 0.
   */
  lemma AtoiSignAndLeadingZeros(zeros: string, ds: string)
    requires forall i :: 0 <= i < |zeros| ==> zeros[i] == '0'
    requires |ds| > 0 && AllDigits(ds)
    requires DecimalValue(ds) <= MaxInt64
    ensures Atoi(zeros + ds) == Some(DecimalValue(ds))
    ensures Atoi("+" + zeros + ds) == Some(DecimalValue(ds))
    ensures Atoi("-" + zeros + ds) == Some(-(DecimalValue(ds) as int))
  {
    var z := zeros + ds;
    DecimalValueLeadingZeros(zeros, ds);
    AtoiUnsigned(z);
    AtoiPlus(z);
    AtoiMinus(z);
    Associate("+", zeros, ds);
    Associate("-", zeros, ds);
  }

  /** Decimal digits are not white space. */
  lemma DigitNotSpace(c: char)
    requires IsDigit(c)
    ensures !IsSpace(c)
  {
  }

  /** Decimal notation of a natural number, without leading zeros. */
  function ShowNat(n: nat): (s: string)
    ensures |s| > 0 && AllDigits(s)
    ensures DecimalValue(s) == n
  {
    var d := ['0' + (n % 10) as char];
    if n < 10 then
      assert DecimalValue(d) == n by {
        assert d[..0] == [];
      }
      d
    else
      var s := ShowNat(n / 10) + d;
      assert s[..|s| - 1] == ShowNat(n / 10);
      s
  }

  /** `Atoi` reads back every `int` it could have printed. */
  lemma AtoiShowNat(n: nat)
    requires n <= MaxInt64
    ensures Atoi(ShowNat(n)) == Some(n)
  {
  }

  // ---------- parseFanList ----------

  /** The four errors `parseFanList` reports. */
  datatype FanListError =
    | EmptyList
    | InvalidIndex(item: string)
    | NegativeIndex(index: int)
    | NoIndices(list: string)

  /**
   * One item of the list, trimmed: `None` for a blank item (skipped), the
   * index for a non-negative integer, and the error otherwise.
   */
  function ParseItem(p: string): (r: Result<Option<int>, FanListError>)
    ensures r == Success(None) <==> |TrimSpace(p)| == 0
    ensures r.Success? && r.value.Some? <==>
      |TrimSpace(p)| > 0 && Atoi(TrimSpace(p)).Some? && Atoi(TrimSpace(p)).value >= 0
    ensures r.Success? && r.value.Some? ==> r.value.value == Atoi(TrimSpace(p)).value
    ensures r.Failure? ==> r.error.InvalidIndex? || r.error.NegativeIndex?
  {
    var t := TrimSpace(p);
    if |t| == 0 then Success(None)
    else
      match Atoi(t)
      case None => Failure(InvalidIndex(t))
      case Some(n) => if n < 0 then Failure(NegativeIndex(n)) else Success(Some(n))
  }

  /** Items that are either blank or a non-negative integer. */
  predicate ValidItem(p: string) {
    ParseItem(p).Success?
  }

  /** Items that contribute an index. */
  predicate IndexItem(p: string) {
    ParseItem(p).Success? && ParseItem(p).value.Some?
  }

  /** One iteration of the item loop: `head` is the item's outcome, `rest` that of the items after it. */
  function Step(head: Result<Option<int>, FanListError>, rest: Result<seq<int>, FanListError>): Result<seq<int>, FanListError> {
    if head.Failure? then Failure(head.error)
    else if head.value.None? then rest
    else if rest.Failure? then rest
    else Success([head.value.value] + rest.value)
  }

  /** The item loop: blank items are skipped; the first bad item ends the parse with its error. */
  function ParseItems(parts: seq<string>): (r: Result<seq<int>, FanListError>)
    ensures r.Failure? ==> r.error.InvalidIndex? || r.error.NegativeIndex?
    ensures r.Success? ==> forall i :: 0 <= i < |r.value| ==> r.value[i] >= 0
  {
    if |parts| == 0 then Success([])
    else
      Step(ParseItem(parts[0]), ParseItems(parts[1..]))
  }

  /** The loop succeeds exactly when every item is blank or a non-negative integer. */
  lemma {:induction false} ParseItemsSucceeds(parts: seq<string>)
    ensures ParseItems(parts).Success? <==> forall i :: 0 <= i < |parts| ==> ValidItem(parts[i])
  {
    if |parts| > 0 {
      ParseItemsSucceeds(parts[1..]);
      assert forall i :: 1 <= i < |parts| ==> parts[1..][i - 1] == parts[i];
    }
  }

  /** The loop collects nothing exactly when no item carries an index. */
  lemma {:induction false} ParseItemsEmpty(parts: seq<string>)
    requires ParseItems(parts).Success?
    ensures |ParseItems(parts).value| == 0 <==> forall i :: 0 <= i < |parts| ==> !IndexItem(parts[i])
  {
    if |parts| > 0 {
      ParseItemsEmpty(parts[1..]);
      assert forall i :: 1 <= i < |parts| ==> parts[1..][i - 1] == parts[i];
    }
  }

  /** The loop yields a non-empty list exactly when every item is valid and some item is an index. */
  lemma {:induction false} ParseItemsValid(parts: seq<string>)
    ensures var items := ParseItems(parts);
      (items.Success? && |items.value| > 0)
      <==> (forall i :: 0 <= i < |parts| ==> ValidItem(parts[i])) && (exists i :: 0 <= i < |parts| && IndexItem(parts[i]))
  {
    ParseItemsSucceeds(parts);
    if ParseItems(parts).Success? {
      ParseItemsEmpty(parts);
    }
  }

  /** Every item of the comma-separated list is blank or an index, and at least one is an index. */
  predicate ListIsValid(t: string) {
    var parts := Split(t, ',');
    && (forall i :: 0 <= i < |parts| ==> ValidItem(parts[i]))
    && (exists i :: 0 <= i < |parts| && IndexItem(parts[i]))
  }

  /**
   * `parseFanList`: white space around the list and its items is ignored and
   * blank items are skipped. A blank list, any item that is not an integer,
   * any negative item, or a list with no items at all is an error; otherwise
   * the result is a non-empty list of non-negative indices.
   */
  function ParseFanList(s: string): (r: Result<seq<int>, FanListError>)
    ensures r == Failure(EmptyList) <==> AllSpace(s)
    ensures r.Success? <==> !AllSpace(s) && ListIsValid(TrimSpace(s))
    ensures r.Success? ==> |r.value| > 0 && forall i :: 0 <= i < |r.value| ==> r.value[i] >= 0
  {
    var t := TrimSpace(s);
    if |t| == 0 then Failure(EmptyList)
    else
      var parts := Split(t, ',');
      var items := ParseItems(parts);
      ParseItemsValid(parts);
      if items.Failure? then items
      else if |items.value| == 0 then Failure(NoIndices(t))
      else items
  }

  // ---------- Round trips ----------

  /** The list `xs` written the way users write it: decimal indices separated by commas. */
  function FormatFanList(xs: seq<nat>): string
    requires |xs| > 0
  {
    Join(ShowAll(xs), ',')
  }

  function ShowAll(xs: seq<nat>): (ss: seq<string>)
    ensures |ss| == |xs|
    ensures forall i :: 0 <= i < |xs| ==> ss[i] == ShowNat(xs[i])
  {
    seq(|xs|, i requires 0 <= i < |xs| => ShowNat(xs[i]))
  }
  /** Sequence facts kept out of the larger proofs, where they are costly. */
  lemma EmptyPrefix<T>(a: seq<T>, b: seq<T>)
    requires |a| == 0
    ensures a + b == b
  {
  }

  lemma EmptySuffix<T>(a: seq<T>, b: seq<T>)
    requires |b| == 0
    ensures a + b == a
  {
  }

  lemma Associate<T>(a: seq<T>, b: seq<T>, c: seq<T>)
    ensures a + (b + c) == (a + b) + c
  {
  }

  lemma HeadTail<T>(xs: seq<T>)
    requires |xs| > 0
    ensures xs == [xs[0]] + xs[1..]
  {
  }

  /** Splitting the first element off a concatenation. */
  lemma ConsSplit<T>(a: seq<T>, b: seq<T>)
    requires |a| > 0
    ensures a + b == [a[0]] + (a[1..] + b)
  {
    assert a == [a[0]] + a[1..];
  }

  /** The loop's first iteration. */
  lemma ParseItemsCons(p: string, ps: seq<string>)
    ensures ParseItems([p] + ps) == Step(ParseItem(p), ParseItems(ps))
  {
    assert ([p] + ps)[1..] == ps;
  }

  /** A blank first item is skipped. */
  lemma ParseItemsBlankHead(blank: string, b: seq<string>)
    requires AllSpace(blank)
    ensures ParseItems([blank] + b) == ParseItems(b)
  {
    assert ParseItem(blank) == Success(None);
    assert ([blank] + b)[1..] == b;
  }

  /** Blank items anywhere in the list are skipped: removing one does not change the outcome. */
  lemma {:induction false} ParseItemsSkipsBlank(a: seq<string>, blank: string, b: seq<string>)
    requires AllSpace(blank)
    ensures ParseItems(a + [blank] + b) == ParseItems(a + b)
  {
    if |a| == 0 {
      EmptyPrefix(a, [blank] + b);
      EmptyPrefix(a, b);
      ParseItemsBlankHead(blank, b);
    } else {
      var x, y := a[1..] + [blank] + b, a[1..] + b;
      Associate(a, [blank], b);
      Associate(a[1..], [blank], b);
      ConsSplit(a, [blank] + b);
      ConsSplit(a, b);
      ParseItemsSkipsBlank(a[1..], blank, b);
      ParseItemsCons(a[0], x);
      ParseItemsCons(a[0], y);
    }
  }

  /**
   * The indices come out in input order: parsing two runs of items one after
   * the other succeeds exactly when both succeed, and then yields the first
   * run's indices followed by the second's.
   */
  lemma {:induction false} ParseItemsAppend(a: seq<string>, b: seq<string>)
    ensures ParseItems(a + b).Success? <==> ParseItems(a).Success? && ParseItems(b).Success?
    ensures ParseItems(a + b).Success? ==> ParseItems(a + b).value == ParseItems(a).value + ParseItems(b).value
  {
    if |a| == 0 {
      EmptyPrefix(a, b);
    } else {
      ConsSplit(a, b);
      ConsSplit(a, []);
      EmptySuffix(a, []);
      EmptySuffix(a[1..], []);
      ParseItemsAppend(a[1..], b);
      ParseItemsCons(a[0], a[1..] + b);
      ParseItemsCons(a[0], a[1..]);
      var h := ParseItem(a[0]);
      if h.Success? && h.value.Some? && ParseItems(a + b).Success? {
        Associate([h.value.value], ParseItems(a[1..]).value, ParseItems(b).value);
      }
    }
  }

  /** A single index item yields exactly its value. */
  lemma ParseItemsSingle(p: string, n: int)
    requires ParseItem(p) == Success(Some(n))
    ensures ParseItems([p]) == Success([n])
  {
    ParseItemsCons(p, []);
    EmptySuffix([p], []);
    EmptySuffix([n], []);
  }

  /** A join of non-empty pieces starts with its first piece's first character and ends with its last piece's last. */
  lemma {:induction false} JoinEnds(parts: seq<string>, sep: char)
    requires |parts| >= 1
    requires forall i :: 0 <= i < |parts| ==> |parts[i]| > 0
    ensures |Join(parts, sep)| > 0
    ensures Join(parts, sep)[0] == parts[0][0]
    ensures Join(parts, sep)[|Join(parts, sep)| - 1] == parts[|parts| - 1][|parts[|parts| - 1]| - 1]
  {
    if |parts| > 1 {
      var tail := parts[1..];
      JoinEnds(tail, sep);
      assert tail[|tail| - 1] == parts[|parts| - 1];
    }
  }

  /** A printed index, as an item, reads back as itself. */
  lemma ParseItemShowNat(n: nat)
    requires n <= MaxInt64
    ensures ParseItem(ShowNat(n)) == Success(Some(n))
  {
    var s := ShowNat(n);
    DigitNotSpace(s[0]);
    DigitNotSpace(s[|s| - 1]);
    TrimSpaceOfTrimmed(s);
    AtoiShowNat(n);
  }

  lemma ShowAllCons(xs: seq<nat>)
    requires |xs| > 0
    ensures ShowAll(xs) == [ShowNat(xs[0])] + ShowAll(xs[1..])
  {
  }

  /** Each printed index reads back as itself. */
  lemma {:induction false} ParseItemsShowAll(xs: seq<nat>)
    requires forall i :: 0 <= i < |xs| ==> xs[i] <= MaxInt64
    ensures ParseItems(ShowAll(xs)) == Success(xs)
  {
    if |xs| > 0 {
      ShowAllCons(xs);
      ParseItemShowNat(xs[0]);
      ParseItemsShowAll(xs[1..]);
      ParseItemsCons(ShowNat(xs[0]), ShowAll(xs[1..]));
      HeadTail(xs);
    }
  }

  /** Writing a list of indices the usual way and parsing it gives the list back. */
  lemma ParseFormatted(xs: seq<nat>)
    requires |xs| > 0
    requires forall i :: 0 <= i < |xs| ==> xs[i] <= MaxInt64
    ensures ParseFanList(FormatFanList(xs)) == Success(xs)
  {
    var ss := ShowAll(xs);
    var s := FormatFanList(xs);
    JoinEnds(ss, ',');
    TrimSpaceOfTrimmed(s);
    assert forall i :: 0 <= i < |ss| ==> ',' !in ss[i] by {
      forall i | 0 <= i < |ss| ensures ',' !in ss[i] {
        assert AllDigits(ss[i]);
      }
    }
    SplitJoin(ss, ',');
    ParseItemsShowAll(xs);
  }
}
