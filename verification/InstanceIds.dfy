/**
  Names of running instances: cleaning them (src/gtk/app_state.c:17-53), ordering
  them (src/gtk/app_state.c:257-294, src/gtk/prettymux-open.c:227-264), finding the
  default one, and choosing one for an instance started inside another
  (src/gtk/app_state.c:109-129, 305-377).
 */
module InstanceIds {
  import opened Decimals
  import opened Options

  /** The size of a buffer for an id, with its terminating zero. */
  const ID_SIZE: nat := 64
  const TWO_TO_THE_64: nat := 0x1_0000_0000_0000_0000

  // ---- cleaning ----

  predicate Allowed(c: char) {
    'a' <= c <= 'z' || 'A' <= c <= 'Z' || '0' <= c <= '9' || c == '-' || c == '_' || c == '.'
  }

  /** In ASCII: hyphen and dot, the digits, the two cases, and underscore. */
  lemma AllowedIff(c: char)
    ensures Allowed(c) <==>
            var n := c as int;
            n == 0x2d || n == 0x2e || 0x30 <= n <= 0x39 || 0x41 <= n <= 0x5a || n == 0x5f || 0x61 <= n <= 0x7a
  {
  }

  predicate AllAllowed(s: string) {
    forall i :: 0 <= i < |s| ==> Allowed(s[i])
  }

  function KeepAllowed(s: string): string {
    if s == "" then "" else (if Allowed(s[0]) then [s[0]] else []) + KeepAllowed(s[1..])
  }

  function Truncate(s: string, n: nat): (r: string)
    ensures |r| <= n && r <= s
  {
    if |s| <= n then s else s[..n]
  }

  /** What fits into a buffer of a size of what is allowed. */
  function Sanitize(s: string, size: nat): string
    requires size > 0
  {
    Truncate(KeepAllowed(s), size - 1)
  }

  lemma {:induction false} KeptIsAllowed(s: string)
    ensures AllAllowed(KeepAllowed(s))
    ensures AllAllowed(s) ==> KeepAllowed(s) == s
  {
    if s != "" {
      KeptIsAllowed(s[1..]);
    }
  }

  /** A cleaned name is clean, fits, and is not changed by being cleaned again. */
  lemma SanitizeIsIdempotent(s: string, size: nat)
    requires size > 0
    ensures var r := Sanitize(s, size); AllAllowed(r) && |r| < size && Sanitize(r, size) == r
  {
    KeptIsAllowed(s);
    KeptIsAllowed(Sanitize(s, size));
  }

  lemma {:induction false} KeepMore(s: string, i: nat)
    requires i < |s|
    ensures KeepAllowed(s[..i + 1]) == KeepAllowed(s[..i]) + if Allowed(s[i]) then [s[i]] else []
  {
    if i == 0 {
      assert s[..1] == [s[0]] && [s[0]][1..] == [];
    } else {
      KeepMore(s[1..], i - 1);
      assert s[1..][..i] == s[..i + 1][1..] && s[1..][..i - 1] == s[..i][1..];
    }
  }

  lemma {:induction false} KeepPrefix(s: string, i: nat)
    requires i <= |s|
    ensures KeepAllowed(s[..i]) <= KeepAllowed(s)
    decreases |s| - i
  {
    if i < |s| {
      KeepMore(s, i);
      KeepPrefix(s, i + 1);
    } else {
      assert s[..i] == s;
    }
  }

  /** sanitize_instance_id; the zero goes after the last character. */
  method SanitizeInto(input: string, out: array<char>) returns (n: nat)
    requires out.Length > 0
    modifies out
    ensures n < out.Length && out[n] == '\0'
    ensures out[..n] == Sanitize(input, out.Length)
  {
    n := 0;
    var i := 0;
    while i < |input| && n + 1 < out.Length
      invariant i <= |input| && n < out.Length
      invariant out[..n] == KeepAllowed(input[..i])
    {
      KeepMore(input, i);
      if Allowed(input[i]) {
        out[n] := input[i];
        n := n + 1;
      }
      i := i + 1;
    }
    KeepPrefix(input, i);
    assert i == |input| ==> input[..i] == input;
    out[n] := '\0';
  }

  // ---- ordering ----

  function DigitsValue(s: string): Option<nat> {
    if s == "" then Some(0)
    else
      var front := DigitsValue(s[..|s| - 1]);
      var c := s[|s| - 1];
      if front.Some? && '0' <= c <= '9' then Some(10 * front.value + (c as int - '0' as int)) else None
  }

  /** The value strtoull gives to a whole id; a minus sign is accepted and
      negates in 64 bits, and too large a number is no number. */
  function ParseNumeric(id: string): Option<nat> {
    var negative := id != "" && id[0] == '-';
    var digits := if negative then id[1..] else id;
    if digits == "" then None
    else
      var v := DigitsValue(digits);
      if v.None? || v.value >= TWO_TO_THE_64 then None
      else if negative then Some((TWO_TO_THE_64 - v.value) % TWO_TO_THE_64)
      else v
  }

  function StrCmp(a: string, b: string): int {
    if a == "" && b == "" then 0
    else if a == "" then -1
    else if b == "" then 1
    else if a[0] < b[0] then -1
    else if a[0] > b[0] then 1
    else StrCmp(a[1..], b[1..])
  }

  /** Numbers first and by value, then by name. */
  function Compare(a: string, b: string): int {
    var x, y := ParseNumeric(a), ParseNumeric(b);
    if x.Some? && y.Some? && x.value < y.value then -1
    else if x.Some? && y.Some? && x.value > y.value then 1
    else if x.Some? && y.None? then -1
    else if x.None? && y.Some? then 1
    else StrCmp(a, b)
  }

  predicate Before(a: string, b: string) {
    Compare(a, b) < 0
  }

  lemma {:induction false} StrCmpOrders(a: string, b: string, c: string)
    ensures StrCmp(a, b) == 0 <==> a == b
    ensures StrCmp(a, b) < 0 <==> StrCmp(b, a) > 0
    ensures StrCmp(a, b) < 0 && StrCmp(b, c) < 0 ==> StrCmp(a, c) < 0
  {
    if a != "" && b != "" {
      StrCmpOrders(a[1..], b[1..], if c == "" then "" else c[1..]);
      assert a == [a[0]] + a[1..] && b == [b[0]] + b[1..];
    }
  }

  /** The comparison is a strict total order of all names, signs, leading zeros
      and numbers of more than 64 bits included. */
  lemma ComparisonIsTotalOrder(a: string, b: string, c: string)
    ensures !Before(a, a)
    ensures Before(a, b) || Before(b, a) || a == b
    ensures !(Before(a, b) && Before(b, a))
    ensures Before(a, b) && Before(b, c) ==> Before(a, c)
    ensures Compare(a, b) == 0 <==> a == b
  {
    StrCmpOrders(a, a, a);
    StrCmpOrders(a, b, c);
    StrCmpOrders(b, a, c);
    StrCmpOrders(b, c, a);
  }

  predicate AllDigits(s: string) {
    forall i :: 0 <= i < |s| ==> '0' <= s[i] <= '9'
  }

  lemma {:induction false} DigitsOnly(s: string)
    ensures DigitsValue(s).Some? <==> AllDigits(s)
  {
    if s != "" {
      DigitsOnly(s[..|s| - 1]);
      assert forall i :: 0 <= i < |s| - 1 ==> s[..|s| - 1][i] == s[i];
    }
  }

  lemma OneMoreDigit(front: string, d: nat)
    requires d < 10 && AllDigits(front) && DigitsValue(front).Some?
    ensures AllDigits(front + [Digit(d)]) && DigitsValue(front + [Digit(d)]) == Some(10 * DigitsValue(front).value + d)
  {
    var s := front + [Digit(d)];
    assert s[..|s| - 1] == front;
  }

  lemma {:induction false} DecimalValue(n: nat)
    ensures AllDigits(Decimal(n)) && DigitsValue(Decimal(n)) == Some(n)
  {
    if n < 10 {
      OneMoreDigit("", n);
      assert "" + [Digit(n)] == [Digit(n)];
    } else {
      DecimalValue(n / 10);
      OneMoreDigit(Decimal(n / 10), n % 10);
    }
  }

  /** What is printed in decimal is a number exactly when it fits into 64 bits. */
  lemma ParsesBack(n: nat)
    ensures ParseNumeric(Decimal(n)) == if n < TWO_TO_THE_64 then Some(n) else None
    ensures 0 < n < TWO_TO_THE_64 ==> ParseNumeric("-" + Decimal(n)) == Some(TWO_TO_THE_64 - n)
  {
    DecimalValue(n);
    assert ("-" + Decimal(n))[1..] == Decimal(n);
  }

  /** Numbers are ordered by value: 2 comes before 10. */
  lemma NumbersInOrder(m: nat, n: nat)
    requires m < n < TWO_TO_THE_64
    ensures Before(Decimal(m), Decimal(n)) && !Before(Decimal(n), Decimal(m))
  {
    ParsesBack(m);
    ParsesBack(n);
  }

  /** What is no number: no digits at all, or something besides digits after a
      minus sign, if there is one. */
  predicate IsWord(s: string) {
    var digits := if s != "" && s[0] == '-' then s[1..] else s;
    digits == "" || !AllDigits(digits)
  }

  lemma WordIsNoNumber(s: string)
    requires IsWord(s)
    ensures ParseNumeric(s).None?
  {
    DigitsOnly(if s != "" && s[0] == '-' then s[1..] else s);
  }

  /** Numbers come before words, and before numbers too large for 64 bits. */
  lemma NumbersBeforeWords(n: nat, s: string, huge: nat)
    requires n < TWO_TO_THE_64 <= huge
    ensures IsWord(s) ==> Before(Decimal(n), s) && !Before(s, Decimal(n))
    ensures Before(Decimal(n), Decimal(huge)) && !Before(Decimal(huge), Decimal(n))
  {
    ParsesBack(n);
    ParsesBack(huge);
    if IsWord(s) {
      WordIsNoNumber(s);
    }
  }

  lemma DigitIsNoMinus(a: string, b: string)
    requires a != "" && AllDigits(a)
    ensures StrCmp(a, "-" + b) > 0
  {
  }

  /** A number with a minus sign counts as what it wraps to in 64 bits. */
  lemma MinusWraps(m: nat, n: nat)
    requires m < TWO_TO_THE_64 && 0 < n < TWO_TO_THE_64
    ensures Before(Decimal(m), "-" + Decimal(n)) <==> m + n < TWO_TO_THE_64
  {
    ParsesBack(m);
    ParsesBack(n);
    DecimalValue(m);
    DigitIsNoMinus(Decimal(m), Decimal(n));
  }

  lemma {:induction false} SameFrontCompares(p: string, a: string, b: string)
    ensures StrCmp(p + a, p + b) == StrCmp(a, b)
  {
    if p == "" {
      assert p + a == a && p + b == b;
    } else {
      assert (p + a)[1..] == p[1..] + a && (p + b)[1..] == p[1..] + b;
      SameFrontCompares(p[1..], a, b);
    }
  }

  /** Words are ordered by the first character in which they differ; a word comes
      before what it is the beginning of. */
  lemma WordsInOrder(p: string, a: string, b: string)
    requires IsWord(p + a) && IsWord(p + b)
    requires b != "" && (a == "" || a[0] < b[0])
    ensures Before(p + a, p + b) && !Before(p + b, p + a)
  {
    WordIsNoNumber(p + a);
    WordIsNoNumber(p + b);
    SameFrontCompares(p, a, b);
    SameFrontCompares(p, b, a);
  }

  // ---- the default instance ----

  /** A live id before all other live ones. */
  predicate IsFirst(id: string, entries: seq<string>, live: string -> bool) {
    && id in entries && live(id)
    && forall e :: e in entries && live(e) && e != id ==> Before(id, e)
  }

  /** scan_default_running_socket over the ids a directory listing yields. */
  method ScanDefault(entries: seq<string>, live: string -> bool) returns (best: Option<string>)
    ensures best.None? <==> forall e :: e in entries ==> !live(e)
    ensures best.Some? ==> IsFirst(best.value, entries, live)
  {
    best := None;
    for i := 0 to |entries|
      invariant best.None? <==> forall e :: e in entries[..i] ==> !live(e)
      invariant best.Some? ==> IsFirst(best.value, entries[..i], live)
    {
      var e := entries[i];
      assert entries[..i + 1] == entries[..i] + [e];
      if live(e) {
        if best.None? {
          best := Some(e);
        } else {
          ghost var was := best.value;
          if Compare(e, best.value) < 0 {
            best := Some(e);
          }
          FirstOfMore(was, e, entries[..i], live);
        }
      }
    }
    assert entries[..|entries|] == entries;
  }

  lemma FirstOfMore(was: string, e: string, entries: seq<string>, live: string -> bool)
    requires IsFirst(was, entries, live) && live(e)
    ensures IsFirst(if Before(e, was) then e else was, entries + [e], live)
  {
    ComparisonIsTotalOrder(e, was, e);
    forall x | x in entries && live(x) && Before(e, was) && x != e ensures Before(e, x) {
      ComparisonIsTotalOrder(e, was, x);
    }
  }

  /** The order of the listing does not matter. */
  lemma DefaultIgnoresListingOrder(id: string, entries: seq<string>, id': string, entries': seq<string>, live: string -> bool)
    requires forall e :: e in entries <==> e in entries'
    requires IsFirst(id, entries, live) && IsFirst(id', entries', live)
    ensures id == id'
  {
    ComparisonIsTotalOrder(id, id', id);
  }

  /** It is also the first of the sorted list of live instances. */
  lemma DefaultHeadsSortedList(id: string, entries: seq<string>, sorted: seq<string>, live: string -> bool)
    requires IsFirst(id, entries, live)
    requires forall e :: e in sorted <==> e in entries && live(e)
    requires forall i, j :: 0 <= i < j < |sorted| ==> Compare(sorted[i], sorted[j]) <= 0
    ensures sorted != [] && sorted[0] == id
  {
    var k :| 0 <= k < |sorted| && sorted[k] == id;
    assert sorted[0] in sorted;
    ComparisonIsTotalOrder(sorted[0], id, id);
    if k > 0 {
      assert Compare(sorted[0], sorted[k]) <= 0;
    }
  }
}
