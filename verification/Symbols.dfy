/** The NAME=VALUE,... argument parser of reloc-run-artifact. */
module Symbols {
  import opened Common
  import opened Int64

  datatype Error = Malformed(item: string) | NotInteger(item: string) | BoundTwice(name: string)

  /** First position of c in s at or after `begin`, or |s|. */
  function IndexOf(s: string, c: char, begin: nat): (k: nat)
    requires begin <= |s|
    ensures begin <= k <= |s| && (forall i :: begin <= i < k ==> s[i] != c) && (k < |s| ==> s[k] == c)
    decreases |s| - begin
  {
    if begin == |s| || s[begin] == c then begin else IndexOf(s, c, begin + 1)
  }

  /** IndexOf is determined by what it finds. */
  lemma IndexOfIs(s: string, c: char, begin: nat, k: nat)
    requires begin <= k <= |s| && (forall i :: begin <= i < k ==> s[i] != c) && (k < |s| ==> s[k] == c)
    ensures IndexOf(s, c, begin) == k
  {
  }

  // ---- strtoll -------------------------------------------------------------------

  predicate IsSpace(c: char) {
    c in {' ', '\t', '\n', '\r', 11 as char, 12 as char}
  }

  /** isspace in the C locale, by code. */
  lemma SpacesAre(c: char)
    ensures IsSpace(c) <==> c as int == 32 || 9 <= c as int <= 13
  {
  }

  predicate IsDigit(c: char) {
    '0' <= c <= '9'
  }

  function LeadingSpaces(s: string): (n: nat)
    ensures n <= |s| && forall i :: 0 <= i < n ==> IsSpace(s[i])
    ensures n < |s| ==> !IsSpace(s[n])
  {
    if s == "" || !IsSpace(s[0]) then 0 else 1 + LeadingSpaces(s[1..])
  }

  function LeadingDigits(s: string): (n: nat)
    ensures n <= |s| && forall i :: 0 <= i < n ==> IsDigit(s[i])
    ensures n < |s| ==> !IsDigit(s[n])
  {
    if s == "" || !IsDigit(s[0]) then 0 else 1 + LeadingDigits(s[1..])
  }

  function DigitOf(c: char): nat
    requires IsDigit(c)
  {
    c as int - 48
  }

  function DigitChar(d: nat): (c: char)
    requires d < 10
    ensures IsDigit(c) && DigitOf(c) == d
  {
    (48 + d) as char
  }

  function DigitsValue(s: string): nat
    requires forall i :: 0 <= i < |s| ==> IsDigit(s[i])
  {
    if s == "" then 0 else DigitsValue(s[..|s| - 1]) * 10 + DigitOf(s[|s| - 1])
  }

  /** Out-of-range values saturate. */
  function Saturate(x: int): int {
    if x > INT64_MAX then INT64_MAX else if x < INT64_MIN then INT64_MIN else x
  }

  /** strtoll(s, &tail, 10): the value and how many characters were consumed. */
  function Strtoll(s: string): (r: (int, nat))
    ensures r.1 <= |s|
  {
    var ws := LeadingSpaces(s);
    var signed := ws < |s| && (s[ws] == '-' || s[ws] == '+');
    var start := if signed then ws + 1 else ws;
    var n := LeadingDigits(s[start..]);
    if n == 0 then (0, 0) else
      var magnitude: int := DigitsValue(s[start..][..n]);
      (Saturate(if signed && s[ws] == '-' then -magnitude else magnitude), start + n)
  }

  /** The characters a C string view sees. */
  function CString(s: string): string {
    s[..IndexOf(s, 0 as char, 0)]
  }

  function ParseValue(s: string): Option<int> {
    var c := CString(s);
    var (value, used) := Strtoll(c);
    if used == |c| then Some(value) else None
  }

  /** White space, an optional sign, at least one digit, and nothing else. */
  ghost predicate IsInteger(c: string, w: string, sign: string, digits: string): (r: bool)
    ensures r ==> forall i :: 0 <= i < |digits| ==> IsDigit(digits[i])
  {
    && c == w + sign + digits && (forall i :: 0 <= i < |w| ==> IsSpace(w[i]))
    && (sign == "" || sign == "+" || sign == "-")
    && digits != "" && forall i :: 0 <= i < |digits| ==> IsDigit(digits[i])
  }

  /** v is x if that is a 64-bit integer, else the nearest one. */
  ghost predicate IsNearest(v: int, x: int) {
    InInt64(v) && (InInt64(x) ==> v == x) && (x > v ==> v == INT64_MAX) && (x < v ==> v == INT64_MIN)
  }

  /** Digits are read in base ten. */
  lemma {:induction false} DigitsConcat(a: string, b: string)
    requires (forall i :: 0 <= i < |a| ==> IsDigit(a[i])) && (forall i :: 0 <= i < |b| ==> IsDigit(b[i]))
    ensures DigitsValue(a + b) == DigitsValue(a) * TenTo(|b|) + DigitsValue(b)
    ensures |a| == 1 ==> DigitsValue(a) == a[0] as int - '0' as int
  {
    if b == "" {
      assert a + b == a;
    } else {
      var init := b[..|b| - 1];
      assert (a + b)[..|a + b| - 1] == a + init;
      DigitsConcat(a, init);
      assert TenTo(|b|) == 10 * TenTo(|init|);
      assert (DigitsValue(a) * TenTo(|init|)) * 10 == DigitsValue(a) * (10 * TenTo(|init|));
    }
  }

  function TenTo(n: nat): nat {
    if n == 0 then 1 else 10 * TenTo(n - 1)
  }

  function Signed(sign: string, digits: string): int
    requires forall i :: 0 <= i < |digits| ==> IsDigit(digits[i])
  {
    var n: int := DigitsValue(digits);
    if sign == "-" then -n else n
  }

  /** strtoll reads an integer to its end. */
  lemma ReadsInteger(c: string, w: string, sign: string, digits: string)
    requires IsInteger(c, w, sign, digits)
    ensures Strtoll(c).1 == |c| && IsNearest(Strtoll(c).0, Signed(sign, digits))
  {
    PartsOf(c, w, sign, digits);
    AllDigitsLead(digits);
    assert digits[..|digits|] == digits;
  }

  lemma SpacesEnd(c: string, n: nat)
    requires n < |c| && !IsSpace(c[n]) && forall i :: 0 <= i < n ==> IsSpace(c[i])
    ensures LeadingSpaces(c) == n
  {
  }

  lemma PartsOf(c: string, w: string, sign: string, digits: string)
    requires IsInteger(c, w, sign, digits)
    ensures LeadingSpaces(c) == |w| && |c| == |w| + |sign| + |digits| && |digits| > 0
    ensures c[|w| + |sign|..] == digits
    ensures if sign == "" then c[|w|] != '+' && c[|w|] != '-' else c[|w|] == sign[0]
  {
    var n := |w|;
    assert forall i :: 0 <= i < n ==> c[i] == w[i];
    assert sign == "" ==> c[n] == digits[0];
    assert sign != "" ==> c[n] == sign[0];
    assert c[n + |sign|..] == digits;
    assert IsDigit(digits[0]) && !IsSpace(digits[0]);
    assert sign != "" ==> sign[0] in {'+', '-'};
    assert !IsSpace(c[n]) && forall i :: 0 <= i < n ==> IsSpace(c[i]);
    hide *;
    SpacesEnd(c, n);
  }

  /** What strtoll reads to the end is such an integer, or empty. */
  lemma ReadToTheEnd(c: string)
    requires Strtoll(c).1 == |c| && c != ""
    ensures exists w, sign, digits :: IsInteger(c, w, sign, digits)
  {
    var ws := LeadingSpaces(c);
    var start := if ws < |c| && (c[ws] == '-' || c[ws] == '+') then ws + 1 else ws;
    var w, sign, digits := c[..ws], c[ws..start], c[start..];
    assert LeadingDigits(digits) == |digits| > 0;
    ThreeParts(c, ws, start);
    assert sign == "" || sign == [c[ws]];
    hide *;
    assert forall i :: 0 <= i < |w| ==> IsSpace(w[i]);
    assert c == w + sign + digits && digits != "" && forall i :: 0 <= i < |digits| ==> IsDigit(digits[i]);
    assert IsInteger(c, w, sign, digits) by { PartsMakeInteger(c, w, sign, digits); }
  }

  lemma ThreeParts(c: string, a: nat, b: nat)
    requires a <= b <= |c|
    ensures c == c[..a] + c[a..b] + c[b..]
  {
  }

  lemma PartsMakeInteger(c: string, w: string, sign: string, digits: string)
    requires c == w + sign + digits && (forall i :: 0 <= i < |w| ==> IsSpace(w[i]))
    requires sign == "" || sign == "+" || sign == "-"
    requires digits != "" && forall i :: 0 <= i < |digits| ==> IsDigit(digits[i])
    ensures IsInteger(c, w, sign, digits)
  {
  }

  /** A value is accepted exactly if, up to the first NUL, it is such an integer or nothing at all. */
  lemma ParseValueExactly(s: string)
    ensures ParseValue(s).Some? <==> CString(s) == "" || exists w, sign, digits :: IsInteger(CString(s), w, sign, digits)
    ensures forall w, sign, digits :: IsInteger(CString(s), w, sign, digits) ==>
              ParseValue(s).Some? && IsNearest(ParseValue(s).value, Signed(sign, digits))
    ensures CString(s) == "" ==> ParseValue(s) == Some(0)
  {
    var c := CString(s);
    hide Signed;
    hide IsNearest;
    hide IsInteger;
    assert c == "" ==> Strtoll(c) == (0, 0);
    hide Strtoll;
    forall w, sign, digits | IsInteger(c, w, sign, digits)
      ensures ParseValue(s).Some? && IsNearest(ParseValue(s).value, Signed(sign, digits))
    {
      ReadsInteger(c, w, sign, digits);
    }
    if ParseValue(s).Some? && c != "" {
      ReadToTheEnd(c);
    }
  }

  datatype Binding = Binding(name: string, value: int)

  function ParseItem(item: string): Result<Binding, Error> {
    var eq := IndexOf(item, '=', 0);
    if eq == |item| || eq == 0 || eq + 1 == |item| then Err(Malformed(item))
    else match ParseValue(item[eq + 1..])
      case None => Err(NotInteger(item))
      case Some(v) => Ok(Binding(item[..eq], v))
  }

  /** An item binds exactly if it is a nonempty name without '=', then '=', then a nonempty value
      that is accepted; otherwise the error says which of the two is wrong. */
  lemma ItemExactly(item: string, name: string, value: string)
    requires item == name + "=" + value && forall i :: 0 <= i < |name| ==> name[i] != '='
    ensures ParseItem(item) ==
            if name == "" || value == "" then Err(Malformed(item))
            else if ParseValue(value).Some? then Ok(Binding(name, ParseValue(value).value)) else Err(NotInteger(item))
  {
    assert forall i :: 0 <= i < |name| ==> item[i] == name[i];
    assert item[|name|] == '=';
    IndexOfIs(item, '=', 0, |name|);
    assert item[..|name|] == name && item[|name| + 1..] == value;
  }

  lemma ItemWithoutEquals(item: string)
    requires forall i :: 0 <= i < |item| ==> item[i] != '='
    ensures ParseItem(item) == Err(Malformed(item))
  {
    IndexOfIs(item, '=', 0, |item|);
  }

  // ---- the scan --------------------------------------------------------------------

  /** The comma-separated items from position start on; a trailing comma adds none. */
  function ItemsFrom(text: string, start: nat): seq<string>
    decreases |text| - start
  {
    if start >= |text| then [] else
      var end := IndexOf(text, ',', start);
      [text[start..end]] + ItemsFrom(text, end + 1)
  }

  function Items(text: string): seq<string> {
    ItemsFrom(text, 0)
  }

  function BindItem(item: string, bound: map<string, int>): Result<map<string, int>, Error> {
    match ParseItem(item)
    case Err(e) => Err(e)
    case Ok(b) => if b.name in bound then Err(BoundTwice(b.name)) else Ok(bound[b.name := b.value])
  }

  function BindAll(items: seq<string>, bound: map<string, int>): Result<map<string, int>, Error> {
    if items == [] then Ok(bound) else
      match BindItem(items[0], bound)
      case Err(e) => Err(e)
      case Ok(m) => BindAll(items[1..], m)
  }

  /** What `out` holds when the scan stops: everything bound before the first bad item. */
  function Kept(items: seq<string>, bound: map<string, int>): map<string, int> {
    if items == [] then bound else
      match BindItem(items[0], bound)
      case Err(_) => bound
      case Ok(m) => Kept(items[1..], m)
  }

  /** The scan terminates on every string and binds the items in order on top of what `out`
      already held; on an error the items before the bad one stay bound. */
  method ParseSymbols(text: string, initial: map<string, int>)
    returns (r: Result<map<string, int>, Error>, out: map<string, int>)
    ensures r == BindAll(Items(text), initial) && out == Kept(Items(text), initial)
  {
    hide BindItem;
    hide BindAll;
    hide Kept;
    out := initial;
    var start := 0;
    while start < |text|
      invariant 0 <= start <= |text| + 1
      invariant BindFrom(text, start, out) == BindFrom(text, 0, initial)
      invariant KeptFrom(text, start, out) == KeptFrom(text, 0, initial)
    {
      var end := IndexOf(text, ',', start);
      var bound := BindItem(text[start..end], out);
      BindOn(text, start, out, bound);
      if bound.Err? {
        return bound, out;
      }
      out := bound.value;
      start := end + 1;
    }
    r := Ok(out);
    BindNothing(text, start, out);
  }

  function BindFrom(text: string, start: nat, bound: map<string, int>): Result<map<string, int>, Error> {
    BindAll(ItemsFrom(text, start), bound)
  }

  function KeptFrom(text: string, start: nat, bound: map<string, int>): map<string, int> {
    Kept(ItemsFrom(text, start), bound)
  }

  lemma BindNothing(text: string, start: nat, bound: map<string, int>)
    requires start >= |text|
    ensures BindFrom(text, start, bound) == Ok(bound) && KeptFrom(text, start, bound) == bound
  {
  }

  lemma BindOn(text: string, start: nat, bound: map<string, int>, first: Result<map<string, int>, Error>)
    requires start < |text| && first == BindItem(text[start..IndexOf(text, ',', start)], bound)
    ensures BindFrom(text, start, bound) ==
            if first.Err? then first else BindFrom(text, IndexOf(text, ',', start) + 1, first.value)
    ensures KeptFrom(text, start, bound) ==
            if first.Err? then bound else KeptFrom(text, IndexOf(text, ',', start) + 1, first.value)
  {
    hide BindItem;
    var end := IndexOf(text, ',', start);
    ItemsUnfold(text, start);
    BindStep(text[start..end], ItemsFrom(text, end + 1), bound);
  }

  lemma BindStep(item: string, rest: seq<string>, bound: map<string, int>)
    ensures BindItem(item, bound).Err? ==>
              BindAll([item] + rest, bound) == BindItem(item, bound) && Kept([item] + rest, bound) == bound
    ensures BindItem(item, bound).Ok? ==>
              && BindAll([item] + rest, bound) == BindAll(rest, BindItem(item, bound).value)
              && Kept([item] + rest, bound) == Kept(rest, BindItem(item, bound).value)
  {
    hide BindItem;
    assert ([item] + rest)[1..] == rest;
  }

  /** On success everything is kept; on an error exactly the items before the first bad one. */
  lemma {:induction false} KeptIsPrefix(items: seq<string>, bound: map<string, int>) returns (k: nat)
    ensures k <= |items| && BindAll(items[..k], bound) == Ok(Kept(items, bound))
    ensures BindAll(items, bound).Ok? ==> k == |items|
    ensures BindAll(items, bound).Err? ==>
              k < |items| && BindItem(items[k], Kept(items, bound)) == BindAll(items, bound)
  {
    hide BindItem;
    k := 0;
    if items != [] && BindItem(items[0], bound).Ok? {
      k := KeptIsPrefix(items[1..], BindItem(items[0], bound).value);
      k := k + 1;
      assert items[..k] == [items[0]] + items[1..][..k - 1];
      BindStep(items[0], items[1..][..k - 1], bound);
    }
  }

  // ---- exactly what is accepted -----------------------------------------------------------

  ghost predicate AllParse(items: seq<string>) {
    forall i :: 0 <= i < |items| ==> ParseItem(items[i]).Ok?
  }

  function NameOf(item: string): string {
    match ParseItem(item)
    case Ok(b) => b.name
    case Err(_) => ""
  }

  ghost predicate DistinctNames(items: seq<string>) {
    forall i, j :: 0 <= i < j < |items| ==> NameOf(items[i]) != NameOf(items[j])
  }

  ghost predicate NoneBound(items: seq<string>, bound: map<string, int>) {
    forall i :: 0 <= i < |items| ==> NameOf(items[i]) !in bound
  }

  /** The three conditions on a list, by its head and its tail. */
  lemma ConditionsSplit(items: seq<string>, bound: map<string, int>, bound': map<string, int>)
    requires items != [] && bound'.Keys == bound.Keys + {NameOf(items[0])}
    ensures AllParse(items) && DistinctNames(items) && NoneBound(items, bound)
       <==> && ParseItem(items[0]).Ok? && NameOf(items[0]) !in bound
            && AllParse(items[1..]) && DistinctNames(items[1..]) && NoneBound(items[1..], bound')
  {
    var rest := items[1..];
    assert forall i {:trigger rest[i]} :: 0 <= i < |rest| ==> rest[i] == items[i + 1];
    assert forall i {:trigger items[i]} :: 0 < i < |items| ==> items[i] == rest[i - 1];
  }

  /** Parsing succeeds if and only if every item is well formed and no name repeats. */
  lemma {:induction false} AcceptedExactly(items: seq<string>, bound: map<string, int>)
    ensures BindAll(items, bound).Ok? <==> AllParse(items) && DistinctNames(items) && NoneBound(items, bound)
  {
    if items != [] {
      var bound' := bound[NameOf(items[0]) := if ParseItem(items[0]).Ok? then ParseItem(items[0]).value.value else 0];
      ConditionsSplit(items, bound, bound');
      AcceptedExactly(items[1..], bound');
    }
  }

  /** m keeps bound, binds each item's name to its value, and binds nothing else. */
  ghost predicate Binds(m: map<string, int>, items: seq<string>, bound: map<string, int>) {
    && (forall name :: name in bound ==> name in m && m[name] == bound[name])
    && (forall i :: 0 <= i < |items| ==> BindsItem(m, items[i]))
    && (forall name :: name in m ==> name in bound || exists i :: 0 <= i < |items| && NameOf(items[i]) == name)
  }

  ghost predicate BindsItem(m: map<string, int>, item: string) {
    ParseItem(item).Ok? && ParseItem(item).value.name in m && m[ParseItem(item).value.name] == ParseItem(item).value.value
  }

  lemma BindsMore(m: map<string, int>, items: seq<string>, bound: map<string, int>)
    requires items != [] && ParseItem(items[0]).Ok? && ParseItem(items[0]).value.name !in bound
    requires Binds(m, items[1..], bound[ParseItem(items[0]).value.name := ParseItem(items[0]).value.value])
    ensures Binds(m, items, bound)
  {
    var b, rest := ParseItem(items[0]).value, items[1..];
    var first := bound[b.name := b.value];
    assert NameOf(items[0]) == b.name && b.name in first;
    assert BindsItem(m, items[0]);
    assert forall name :: name in bound ==> name in first && first[name] == bound[name];
    assert forall i :: 0 <= i < |rest| ==> BindsItem(m, rest[i]);
    hide *;
    ItemsBound(m, items);
    NamesCome(m, items, bound, first);
    assert Binds(m, items, bound) by { BindsIs(m, items, bound); }
  }

  lemma BindsIs(m: map<string, int>, items: seq<string>, bound: map<string, int>)
    requires forall name :: name in bound ==> name in m && m[name] == bound[name]
    requires forall i :: 0 <= i < |items| ==> BindsItem(m, items[i])
    requires forall name :: name in m ==> name in bound || exists i :: 0 <= i < |items| && NameOf(items[i]) == name
    ensures Binds(m, items, bound)
  {
  }

  lemma ItemsBound(m: map<string, int>, items: seq<string>)
    requires items != [] && BindsItem(m, items[0]) && forall i :: 0 <= i < |items[1..]| ==> BindsItem(m, items[1..][i])
    ensures forall i :: 0 <= i < |items| ==> BindsItem(m, items[i])
  {
    hide *;
    forall i | 0 <= i < |items| ensures BindsItem(m, items[i]) {
      assert i > 0 ==> items[i] == items[1..][i - 1];
    }
  }

  lemma NamesCome(m: map<string, int>, items: seq<string>, bound: map<string, int>, first: map<string, int>)
    requires items != [] && forall name :: name in first ==> name in bound || name == NameOf(items[0])
    requires forall name :: name in m ==>
               name in first || exists i :: 0 <= i < |items[1..]| && NameOf(items[1..][i]) == name
    ensures forall name :: name in m ==> name in bound || exists i :: 0 <= i < |items| && NameOf(items[i]) == name
  {
    hide *;
    forall name | name in m && name !in bound ensures exists i :: 0 <= i < |items| && NameOf(items[i]) == name {
      if name in first {
        assert NameOf(items[0]) == name;
      } else {
        var i :| 0 <= i < |items[1..]| && NameOf(items[1..][i]) == name;
        assert NameOf(items[i + 1]) == name;
      }
    }
  }

  /** On success `out` keeps what it held and binds each item's name to its value, and no more. */
  lemma {:induction false} BoundExactly(items: seq<string>, bound: map<string, int>)
    requires BindAll(items, bound).Ok?
    ensures Binds(BindAll(items, bound).value, items, bound)
  {
    hide BindItem;
    hide Binds;
    if items == [] {
      BindsNothing(bound);
    } else {
      BindItemIs(items[0], bound);
      BoundExactly(items[1..], BindItem(items[0], bound).value);
      BindsMore(BindAll(items, bound).value, items, bound);
    }
  }

  lemma BindsNothing(bound: map<string, int>)
    ensures Binds(bound, [], bound)
  {
  }

  /** One item: an error of its own, a name that is bound already, or one more binding. */
  lemma BindItemIs(item: string, bound: map<string, int>)
    ensures BindItem(item, bound).Ok? <==> ParseItem(item).Ok? && ParseItem(item).value.name !in bound
    ensures ParseItem(item).Err? ==> BindItem(item, bound) == Err(ParseItem(item).error)
    ensures ParseItem(item).Ok? && ParseItem(item).value.name in bound ==>
              BindItem(item, bound) == Err(BoundTwice(ParseItem(item).value.name))
    ensures BindItem(item, bound).Ok? ==>
              BindItem(item, bound).value == bound[ParseItem(item).value.name := ParseItem(item).value.value]
  {
  }

  /** A repeated name is always rejected. */
  lemma RepeatRejected(text: string, i: nat, j: nat)
    requires i < j < |Items(text)|
    requires ParseItem(Items(text)[i]).Ok? && ParseItem(Items(text)[j]).Ok?
    requires NameOf(Items(text)[i]) == NameOf(Items(text)[j])
    ensures BindAll(Items(text), map[]).Err?
  {
    AcceptedExactly(Items(text), map[]);
  }

  // ---- printing and parsing ----------------------------------------------------------------

  function PrintNat(n: nat): (s: string)
    ensures s != "" && forall i :: 0 <= i < |s| ==> IsDigit(s[i])
  {
    var last := [DigitChar(n % 10)];
    if n < 10 then last else PrintNat(n / 10) + last
  }

  function PrintInt(n: int): string {
    if n < 0 then "-" + PrintNat(-n) else PrintNat(n)
  }

  lemma {:induction false} PrintedValue(n: nat)
    ensures DigitsValue(PrintNat(n)) == n
  {
    var s := PrintNat(n);
    assert DigitOf(s[|s| - 1]) == n % 10;
    if n < 10 {
      assert s[..|s| - 1] == "";
    } else {
      assert s[..|s| - 1] == PrintNat(n / 10);
      PrintedValue(n / 10);
    }
  }

  lemma {:induction false} AllDigitsLead(s: string)
    requires forall i :: 0 <= i < |s| ==> IsDigit(s[i])
    ensures LeadingDigits(s) == |s|
  {
    if s != "" {
      AllDigitsLead(s[1..]);
    }
  }

  /** Parsing a printed 64-bit integer gives it back. */
  lemma PrintedInteger(n: int)
    requires InInt64(n)
    ensures ParseValue(PrintInt(n)) == Some(n)
  {
    var s, digits := PrintInt(n), PrintNat(if n < 0 then -n else n);
    PrintedValue(if n < 0 then -n else n);
    IndexOfIs(s, 0 as char, 0, |s|);
    assert CString(s) == s;
    var sign := if n < 0 then "-" else "";
    assert IsInteger(s, "", sign, digits);
    ReadsInteger(s, "", sign, digits);
    assert Signed(sign, digits) == n;
  }

  /** A name the parser can give back. */
  predicate PlainName(name: string) {
    name != "" && forall i :: 0 <= i < |name| ==> name[i] != ',' && name[i] != '='
  }

  function PrintBinding(b: Binding): string {
    b.name + "=" + PrintInt(b.value)
  }

  function Print(bindings: seq<Binding>): string {
    if bindings == [] then ""
    else if |bindings| == 1 then PrintBinding(bindings[0])
    else PrintBinding(bindings[0]) + "," + Print(bindings[1..])
  }

  ghost predicate Printable(bindings: seq<Binding>) {
    && (forall i :: 0 <= i < |bindings| ==> PlainName(bindings[i].name) && InInt64(bindings[i].value))
    && (forall i, j :: 0 <= i < j < |bindings| ==> bindings[i].name != bindings[j].name)
  }

  lemma PrintIntChars(n: int)
    ensures PrintInt(n) != ""
    ensures forall i :: 0 <= i < |PrintInt(n)| ==> PrintInt(n)[i] != ','
  {
  }

  lemma PrintedBindingHasNoComma(b: Binding)
    requires PlainName(b.name)
    ensures forall i :: 0 <= i < |PrintBinding(b)| ==> PrintBinding(b)[i] != ','
  {
    PrintIntChars(b.value);
  }

  lemma PrintedBinding(b: Binding)
    requires PlainName(b.name) && InInt64(b.value)
    ensures ParseItem(PrintBinding(b)) == Ok(b)
  {
    var item, eq, value := PrintBinding(b), |b.name|, PrintInt(b.value);
    PrintIntChars(b.value);
    assert item == b.name + (['='] + value);
    assert forall i :: 0 <= i < eq ==> item[i] == b.name[i];
    IndexOfIs(item, '=', 0, eq);
    assert item[eq + 1..] == value && item[..eq] == b.name;
    PrintedInteger(b.value);
  }

  lemma ItemsOfOne(item: string)
    requires item != "" && forall i :: 0 <= i < |item| ==> item[i] != ','
    ensures Items(item) == [item]
  {
    IndexOfIs(item, ',', 0, |item|);
    assert item[0..|item|] == item && ItemsFrom(item, |item| + 1) == [];
  }

  /** Items do not depend on what precedes the scan position. */
  lemma {:induction false} ItemsAfter(text: string, n: nat, k: nat)
    requires n + k <= |text| + 1 && n <= |text|
    ensures ItemsFrom(text, n + k) == ItemsFrom(text[n..], k)
    decreases |text| - k
  {
    hide *;
    var tail := text[n..];
    if n + k >= |text| {
      ItemsEnd(text, n + k);
      ItemsEnd(tail, k);
    } else {
      IndexAfter(text, n, k);
      var end := IndexOf(tail, ',', k);
      ItemsAfter(text, n, end + 1);
      ItemsUnfold(text, n + k);
      ItemsUnfold(tail, k);
      SliceAfter(text, n, k, end);
      assert n + (end + 1) == n + end + 1;
    }
  }

  lemma SliceAfter(text: string, n: nat, lo: nat, hi: nat)
    requires n <= |text| && lo <= hi <= |text| - n
    ensures text[n + lo..n + hi] == text[n..][lo..hi]
  {
  }

  lemma ItemsEnd(text: string, start: nat)
    requires start >= |text|
    ensures ItemsFrom(text, start) == []
  {
  }

  lemma ItemsUnfold(text: string, start: nat)
    requires start < |text|
    ensures var end := IndexOf(text, ',', start);
            ItemsFrom(text, start) == [text[start..end]] + ItemsFrom(text, end + 1)
  {
  }

  lemma {:induction false} IndexAfter(text: string, n: nat, k: nat)
    requires n + k <= |text|
    ensures IndexOf(text, ',', n + k) == n + IndexOf(text[n..], ',', k)
    decreases |text| - k
  {
    if n + k < |text| && text[n + k] != ',' {
      IndexAfter(text, n, k + 1);
    }
  }

  lemma ItemsOfMore(item: string, tail: string)
    requires forall i :: 0 <= i < |item| ==> item[i] != ','
    ensures Items(item + "," + tail) == [item] + Items(tail)
  {
    var text := item + "," + tail;
    IndexOfIs(text, ',', 0, |item|);
    assert text[0..|item|] == item;
    assert text[|item| + 1..] == tail;
    ItemsAfter(text, |item| + 1, 0);
  }

  function Printed(bindings: seq<Binding>): (r: seq<string>)
    ensures |r| == |bindings|
  {
    if bindings == [] then [] else [PrintBinding(bindings[0])] + Printed(bindings[1..])
  }

  lemma {:induction false} PrintedItems(bindings: seq<Binding>)
    requires forall i :: 0 <= i < |bindings| ==> PlainName(bindings[i].name)
    ensures Items(Print(bindings)) == Printed(bindings)
  {
    if bindings != [] {
      var first, rest := PrintBinding(bindings[0]), bindings[1..];
      PrintedBindingHasNoComma(bindings[0]);
      if |bindings| == 1 {
        ItemsOfOne(first);
      } else {
        PrintedItems(rest);
        ItemsOfMore(first, Print(rest));
      }
    }
  }

  function ToMap(bindings: seq<Binding>, bound: map<string, int>): map<string, int> {
    if bindings == [] then bound else ToMap(bindings[1..], bound[bindings[0].name := bindings[0].value])
  }

  lemma {:induction false} BindPrinted(bindings: seq<Binding>, bound: map<string, int>)
    requires Printable(bindings)
    requires forall i :: 0 <= i < |bindings| ==> bindings[i].name !in bound
    ensures BindAll(Printed(bindings), bound) == Ok(ToMap(bindings, bound))
  {
    if bindings != [] {
      PrintedBinding(bindings[0]);
      var rest := bindings[1..];
      assert forall i :: 0 <= i < |rest| ==> rest[i] == bindings[i + 1];
      BindPrinted(rest, bound[bindings[0].name := bindings[0].value]);
    }
  }

  /** parseSymbols undoes printing. */
  lemma ParseUndoesPrint(bindings: seq<Binding>)
    requires Printable(bindings)
    ensures BindAll(Items(Print(bindings)), map[]) == Ok(ToMap(bindings, map[]))
    ensures forall i :: 0 <= i < |bindings| ==>
              bindings[i].name in ToMap(bindings, map[]) && ToMap(bindings, map[])[bindings[i].name] == bindings[i].value
    ensures forall name :: name in ToMap(bindings, map[]) ==>
              exists i :: 0 <= i < |bindings| && bindings[i].name == name
  {
    PrintedItems(bindings);
    BindPrinted(bindings, map[]);
    MapHolds(bindings, map[]);
  }

  lemma {:induction false} MapHolds(bindings: seq<Binding>, bound: map<string, int>)
    requires forall i, j :: 0 <= i < j < |bindings| ==> bindings[i].name != bindings[j].name
    ensures forall i :: 0 <= i < |bindings| ==>
              bindings[i].name in ToMap(bindings, bound) && ToMap(bindings, bound)[bindings[i].name] == bindings[i].value
    ensures forall name :: name in bound && (forall i :: 0 <= i < |bindings| ==> bindings[i].name != name) ==>
              name in ToMap(bindings, bound) && ToMap(bindings, bound)[name] == bound[name]
    ensures forall name :: name in ToMap(bindings, bound) ==>
              name in bound || exists i :: 0 <= i < |bindings| && bindings[i].name == name
  {
    if bindings != [] {
      var rest := bindings[1..];
      assert forall i :: 0 <= i < |rest| ==> rest[i] == bindings[i + 1];
      MapHolds(rest, bound[bindings[0].name := bindings[0].value]);
    }
  }
}
