/**
Hierarchical ids `parent.N`: building them, taking them apart, counting their
depth, and finding them with LIKE patterns.
*/
module HierarchyIds {
  import opened Wrappers

  type ID = string

  const MAX_HIERARCHY_DEPTH := 3
  const MAX_INT64: int := 0x7fff_ffff_ffff_ffff
  const MIN_INT64: int := -0x8000_0000_0000_0000

  type int64 = x: int | MIN_INT64 <= x <= MAX_INT64

  // ----- decimal numbers -----

  function DigitChar(d: nat): char
    requires d < 10
  {
    '0' + d as char
  }

  predicate IsDigit(c: char) {
    '0' <= c <= '9'
  }

  function Digits(n: nat): (s: string)
    ensures s != "" && forall c | c in s :: IsDigit(c)
  {
    if n < 10 then [DigitChar(n)] else Digits(n / 10) + [DigitChar(n % 10)]
  }

  /** What "%d" prints. */
  function Decimal(n: int): string {
    if n < 0 then "-" + Digits(-n) else Digits(n)
  }

  function LeadingDigits(s: string): string {
    if s == "" || !IsDigit(s[0]) then "" else [s[0]] + LeadingDigits(s[1..])
  }

  function Number(s: string): nat
    requires forall c | c in s :: IsDigit(c)
  {
    if s == "" then 0
    else
      assert IsDigit(s[|s| - 1]);
      Number(s[..|s| - 1]) * 10 + (s[|s| - 1] as int - '0' as int)
  }

  /** Number of the leading digits, if there are any and it fits. */
  function ScanNumber(s: string, negative: bool): Option<int64> {
    var digits := LeadingDigits(s);
    LeadingDigitsAreDigits(s);
    if digits == "" then None
    else
      var m: int := Number(digits);
      var n := if negative then -m else m;
      if MIN_INT64 <= n <= MAX_INT64 then Some(n) else None
  }

  lemma {:induction false} LeadingDigitsAreDigits(s: string)
    ensures forall c | c in LeadingDigits(s) :: IsDigit(c)
  {
    if s != "" && IsDigit(s[0]) {
      LeadingDigitsAreDigits(s[1..]);
    }
  }

  predicate IsSpace(c: char) {
    || 9 <= c as int <= 13 || c as int in {0x20, 0x85, 0xA0, 0x1680, 0x2028, 0x2029, 0x202F, 0x205F, 0x3000}
    || 0x2000 <= c as int <= 0x200A
  }

  /** What "%d" scans: spaces but no newline, a sign, digits; whatever follows them is not looked at. */
  function ScanInt(s: string): Option<int64> {
    if s == "" || s[0] == '\n' then None
    else if IsSpace(s[0]) then ScanInt(s[1..])
    else if s[0] == '-' then ScanNumber(s[1..], true)
    else if s[0] == '+' then ScanNumber(s[1..], false)
    else ScanNumber(s, false)
  }

  lemma {:induction false} AllDigitsLead(s: string)
    requires forall c | c in s :: IsDigit(c)
    ensures LeadingDigits(s) == s
  {
    if s != "" {
      AllDigitsLead(s[1..]);
      assert s == [s[0]] + s[1..];
    }
  }

  lemma {:induction false} NumberOfDigits(n: nat)
    ensures Number(Digits(n)) == n
  {
    if n >= 10 {
      NumberOfDigits(n / 10);
      assert Digits(n)[..|Digits(n)| - 1] == Digits(n / 10);
    } else {
      assert Digits(n)[..0] == "";
    }
  }

  /** Scanning what was printed gives the number back. */
  lemma ScanDecimal(n: int64)
    ensures ScanInt(Decimal(n)) == Some(n)
  {
    var m: int := if n < 0 then -(n as int) else n;
    var digits := Digits(m);
    AllDigitsLead(digits);
    NumberOfDigits(m);
    assert digits[0] in digits && IsDigit(digits[0]);
    assert n < 0 ==> Decimal(n)[1..] == digits;
  }

  // ----- dots -----

  function Dots(s: string): nat {
    if s == "" then 0 else (if s[0] == '.' then 1 else 0) + Dots(s[1..])
  }

  lemma {:induction false} DotsAdd(s: string, t: string)
    ensures Dots(s + t) == Dots(s) + Dots(t)
  {
    if s != "" {
      DotsAdd(s[1..], t);
      assert (s + t)[1..] == s[1..] + t;
    } else {
      assert s + t == t;
    }
  }

  lemma {:induction false} NoDots(s: string)
    ensures Dots(s) == 0 <==> '.' !in s
  {
    if s != "" {
      NoDots(s[1..]);
      assert s == [s[0]] + s[1..];
    }
  }

  /** `s` is `head`, a dot, and `tail`, and the dot is the last one. */
  ghost predicate SplitAtLastDot(s: string, head: string, tail: string) {
    s == head + "." + tail && '.' !in tail
  }

  ghost predicate SplitAtFirstDot(s: string, head: string, tail: string) {
    s == head + "." + tail && '.' !in head
  }

  lemma LastDotIsUnique(s: string, h: string, t: string, head: string, tail: string)
    requires SplitAtLastDot(s, h, t) && SplitAtLastDot(s, head, tail)
    ensures h == head && t == tail
  {
    forall k | |h| < k < |s| ensures s[k] != '.' {
      assert s[k] == t[k - |h| - 1];
    }
    forall k | |head| < k < |s| ensures s[k] != '.' {
      assert s[k] == tail[k - |head| - 1];
    }
    assert s[|h|] == '.' && s[|head|] == '.';
    assert h == s[..|h|] && t == s[|h| + 1..];
  }

  lemma DecimalHasNoDot(n: int)
    ensures '.' !in Decimal(n)
  {
    assert forall c | c in Digits(if n < 0 then -n else n) :: IsDigit(c);
  }

  // ----- parent and depth -----

  function GenerateChildID(parentID: ID, childNumber: int): ID {
    parentID + "." + Decimal(childNumber)
  }

  /** types.ParseHierarchicalID: root, parent and depth. */
  method ParseHierarchicalID(id: ID) returns (rootID: ID, parentID: ID, depth: nat)
    ensures depth == Dots(id)
    ensures depth == 0 ==> rootID == id && parentID == ""
    ensures depth > 0 ==> exists tail :: SplitAtLastDot(id, parentID, tail)
    ensures depth > 0 ==> exists tail :: SplitAtFirstDot(id, rootID, tail)
  {
    depth := 0;
    var lastDot := -1;
    for i := 0 to |id|
      invariant depth == Dots(id[..i]) && -1 <= lastDot < i
      invariant if lastDot == -1 then depth == 0 else depth > 0 && id[lastDot] == '.'
      invariant forall j | lastDot < j < i :: id[j] != '.'
    {
      DotsNext(id, i);
      if id[i] == '.' {
        depth := depth + 1;
        lastDot := i;
      }
    }
    assert id[..|id|] == id;
    if depth == 0 {
      return id, "", 0;
    }
    var firstDot := FirstDot(id, lastDot);
    rootID, parentID := id[..firstDot], id[..lastDot];
    assert SplitAtFirstDot(id, rootID, id[firstDot + 1..]);
    assert SplitAtLastDot(id, parentID, id[lastDot + 1..]);
  }

  lemma DotsNext(id: ID, i: nat)
    requires i < |id|
    ensures Dots(id[..i + 1]) == Dots(id[..i]) + if id[i] == '.' then 1 else 0
  {
    DotsAdd(id[..i], [id[i]]);
    assert id[..i + 1] == id[..i] + [id[i]];
  }

  /** The search for the first dot. */
  method FirstDot(id: ID, ghost some: nat) returns (firstDot: nat)
    requires some < |id| && id[some] == '.'
    ensures firstDot < |id| && id[firstDot] == '.' && forall j | 0 <= j < firstDot :: id[j] != '.'
  {
    firstDot := 0;
    for i := 0 to |id|
      invariant i <= some && forall j | 0 <= j < i :: id[j] != '.'
    {
      if id[i] == '.' {
        return i;
      }
    }
  }

  /** CheckHierarchyDepth: may a child be added below this parent? */
  method CheckHierarchyDepth(parentID: ID, maxDepth: int) returns (ok: bool)
    ensures ok <==> Dots(parentID) < if maxDepth < 1 then 3 else maxDepth
  {
    var limit := if maxDepth < 1 then MAX_HIERARCHY_DEPTH else maxDepth;
    var depth := 0;
    for i := 0 to |parentID|
      invariant depth == Dots(parentID[..i])
    {
      DotsNext(parentID, i);
      if parentID[i] == '.' {
        depth := depth + 1;
      }
    }
    assert parentID[..|parentID|] == parentID;
    ok := depth < limit;
  }

  function DepthLimit(maxDepth: int): int {
    if maxDepth < 1 then MAX_HIERARCHY_DEPTH else maxDepth
  }

  /** A generated child is one deeper than its parent, and its last dot gives the parent back. */
  lemma GeneratedChild(parentID: ID, n: int)
    ensures Dots(GenerateChildID(parentID, n)) == Dots(parentID) + 1
    ensures forall head, tail | SplitAtLastDot(GenerateChildID(parentID, n), head, tail) ::
              head == parentID && tail == Decimal(n)
  {
    DecimalHasNoDot(n);
    NoDots(Decimal(n));
    DotsAdd(parentID, "." + Decimal(n));
    DotsAdd(".", Decimal(n));
    assert Dots(".") == 1;
    assert GenerateChildID(parentID, n) == parentID + ("." + Decimal(n));
    forall head, tail | SplitAtLastDot(GenerateChildID(parentID, n), head, tail)
      ensures head == parentID && tail == Decimal(n)
    {
      LastDotIsUnique(GenerateChildID(parentID, n), parentID, Decimal(n), head, tail);
    }
  }

  /** Building a child and taking it apart again, within the depth limit exactly when the check accepted the parent. */
  method ChildRoundTrip(parentID: ID, n: int, maxDepth: int) returns (parsed: ID, depth: nat, ok: bool)
    ensures parsed == parentID && depth == Dots(parentID) + 1
    ensures ok <==> depth <= DepthLimit(maxDepth)
  {
    GeneratedChild(parentID, n);
    var root;
    root, parsed, depth := ParseHierarchicalID(GenerateChildID(parentID, n));
    ok := CheckHierarchyDepth(parentID, maxDepth);
  }

  // ----- LIKE -----

  /** ASCII letters compare without case. */
  function Fold(c: char): char {
    if 'A' <= c <= 'Z' then c - 'A' + 'a' else c
  }

  /** `text LIKE pattern`, where % stands for any run of characters and _ for any one. */
  predicate Like(text: string, pattern: string)
    decreases |text| + |pattern|
  {
    if pattern == "" then text == ""
    else if pattern[0] == '%' then Like(text, pattern[1..]) || (text != "" && Like(text[1..], pattern))
    else text != "" && (pattern[0] == '_' || Fold(pattern[0]) == Fold(text[0])) && Like(text[1..], pattern[1..])
  }

  lemma {:induction false} LikeAnything(text: string)
    ensures Like(text, "%")
  {
    if text != "" {
      LikeAnything(text[1..]);
    } else {
      assert Like("", "%"[1..]);
    }
  }

  /** A text matches itself used as a pattern, whatever wildcards it holds. */
  lemma {:induction false} LikePrefix(prefix: string, text: string, pattern: string)
    requires Like(text, pattern)
    ensures Like(prefix + text, prefix + pattern)
  {
    if prefix == "" {
      assert prefix + text == text && prefix + pattern == pattern;
    } else {
      LikePrefix(prefix[1..], text, pattern);
      assert (prefix + text)[1..] == prefix[1..] + text;
      assert (prefix + pattern)[1..] == prefix[1..] + pattern;
      if prefix[0] == '%' {
        assert Like((prefix + text)[1..], (prefix + pattern)[1..]);
      }
    }
  }

  /** Every dot of a pattern needs a dot of the text. */
  lemma {:induction false} LikeNeedsDots(text: string, pattern: string)
    requires Like(text, pattern)
    ensures Dots(pattern) <= Dots(text)
    decreases |text| + |pattern|
  {
    if pattern != "" {
      if pattern[0] == '%' {
        if Like(text, pattern[1..]) {
          LikeNeedsDots(text, pattern[1..]);
        } else {
          LikeNeedsDots(text[1..], pattern);
        }
      } else {
        LikeNeedsDots(text[1..], pattern[1..]);
      }
    }
  }

  /** The rows that the scan for existing children reads. */
  predicate LooksLikeChild(id: ID, parentID: ID) {
    Like(id, parentID + ".%") && !Like(id, parentID + ".%.%")
  }

  /** The scan never misses a child in canonical form, whatever wildcards the parent's id holds. */
  lemma CanonicalChildIsScanned(parentID: ID, n: int)
    ensures LooksLikeChild(GenerateChildID(parentID, n), parentID)
  {
    var id, d := GenerateChildID(parentID, n), Decimal(n);
    LikeAnything(d);
    assert ".%"[1..] == "%" && ("." + d)[1..] == d;
    assert Like("." + d, ".%");
    LikePrefix(parentID, "." + d, ".%");
    assert id == parentID + ("." + d);
    GeneratedChild(parentID, n);
    if Like(id, parentID + ".%.%") {
      LikeNeedsDots(id, parentID + ".%.%");
      DotsAdd(parentID, ".%.%");
      TwoDots();
    }
  }

  lemma {:induction false} LikeSkips(head: string, text: string, pattern: string)
    requires Like(text, pattern)
    ensures Like(head + text, "%" + pattern)
  {
    assert ("%" + pattern)[1..] == pattern;
    if head == "" {
      assert head + text == text;
    } else {
      LikeSkips(head[1..], text, pattern);
      assert (head + text)[1..] == head[1..] + text;
    }
  }

  /** The scan leaves out the children's own children, for which two dots follow the parent's id. */
  lemma GrandchildIsNotScanned(parentID: ID, m: int, n: int)
    ensures !LooksLikeChild(GenerateChildID(GenerateChildID(parentID, m), n), parentID)
  {
    hide Like;
    var tail := "." + Decimal(n);
    LikeAnything(Decimal(n));
    LikePrefix(".", Decimal(n), "%");
    LikeSkips(Decimal(m), tail, "." + "%");
    LikePrefix(parentID + ".", Decimal(m) + tail, "%" + ("." + "%"));
    assert parentID + "." + (Decimal(m) + tail) == GenerateChildID(GenerateChildID(parentID, m), n);
    assert parentID + "." + ("%" + ("." + "%")) == parentID + ".%.%";
  }

  lemma TwoDots()
    ensures Dots(".%.%") == 2
  {
    DotsAdd(".%", ".%");
    DotsAdd(".", "%");
    assert Dots(".") == 1 && Dots("%") == 0;
    assert "." + "%" == ".%" && ".%" + ".%" == ".%.%";
  }
}
