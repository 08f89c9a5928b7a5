// Strings as the repository handles them: trimmed of white space and compared by code point.
module Text {

  datatype Option<+T> = None | Some(value: T)

  // unicode.IsSpace
  predicate IsSpace(c: char) {
    c == ' ' || '\t' <= c <= '\r' || c == '\U{85}' || c == '\U{A0}' || c == '\U{1680}' ||
    '\U{2000}' <= c <= '\U{200A}' || c == '\U{2028}' || c == '\U{2029}' || c == '\U{202F}' ||
    c == '\U{205F}' || c == '\U{3000}'
  }

  function TrimLeft(s: string): string {
    if s != [] && IsSpace(s[0]) then TrimLeft(s[1..]) else s
  }

  function TrimRight(s: string): string {
    if s != [] && IsSpace(s[|s| - 1]) then TrimRight(s[..|s| - 1]) else s
  }

  // strings.TrimSpace
  function TrimSpace(s: string): string {
    TrimRight(TrimLeft(s))
  }

  predicate Blank(s: string) { TrimSpace(s) == "" }

  predicate Trimmed(s: string) {
    s == [] || (!IsSpace(s[0]) && !IsSpace(s[|s| - 1]))
  }

  lemma TrimmedIsFixed(s: string)
    requires Trimmed(s)
    ensures TrimSpace(s) == s
  {
  }

  lemma {:induction false} TrimLeftStarts(s: string)
    ensures TrimLeft(s) == [] || !IsSpace(TrimLeft(s)[0])
  {
    hide IsSpace;
    if s != [] && IsSpace(s[0]) {
      TrimLeftStarts(s[1..]);
    }
  }

  lemma {:induction false} TrimRightEnds(s: string)
    requires s == [] || !IsSpace(s[0])
    ensures Trimmed(TrimRight(s))
  {
    hide IsSpace;
    if s != [] && IsSpace(s[|s| - 1]) {
      TrimRightEnds(s[..|s| - 1]);
    }
  }

  lemma TrimSpaceIsIdempotent(s: string)
    ensures TrimSpace(TrimSpace(s)) == TrimSpace(s)
  {
    hide Trimmed;
    TrimLeftStarts(s);
    TrimRightEnds(TrimLeft(s));
    TrimmedIsFixed(TrimSpace(s));
  }

  // The white space of Unicode, by code point.
  lemma SpaceExactly(c: char)
    ensures IsSpace(c) <==>
              9 <= c as int <= 13 || 8192 <= c as int <= 8202 ||
              c as int in {32, 133, 160, 5760, 8232, 8233, 8239, 8287, 12288}
  {
  }

  predicate AllSpace(s: string) {
    forall c :: c in s ==> IsSpace(c)
  }

  lemma {:induction false} TrimLeftDropsSpace(s: string) returns (left: string)
    ensures s == left + TrimLeft(s) && AllSpace(left)
  {
    hide IsSpace;
    left := "";
    if s != [] && IsSpace(s[0]) {
      left := TrimLeftDropsSpace(s[1..]);
      left := [s[0]] + left;
    }
  }

  lemma {:induction false} TrimRightDropsSpace(s: string) returns (right: string)
    ensures s == TrimRight(s) + right && AllSpace(right)
  {
    hide IsSpace;
    right := "";
    if s != [] && IsSpace(s[|s| - 1]) {
      right := TrimRightDropsSpace(s[..|s| - 1]);
      right := right + [s[|s| - 1]];
    }
  }

  // Trimming drops white space on both sides and leaves none there.
  lemma TrimSpaceExactly(s: string) returns (left: string, right: string)
    ensures s == left + TrimSpace(s) + right && AllSpace(left) && AllSpace(right) && Trimmed(TrimSpace(s))
    ensures Blank(s) <==> AllSpace(s)
  {
    hide IsSpace, AllSpace;
    left := TrimLeftDropsSpace(s);
    right := TrimRightDropsSpace(TrimLeft(s));
    TrimLeftStarts(s);
    TrimRightEnds(TrimLeft(s));
    BlankExactly(s, left, TrimSpace(s), right);
  }

  lemma BlankExactly(s: string, left: string, core: string, right: string)
    requires s == left + core + right && AllSpace(left) && AllSpace(right) && Trimmed(core)
    ensures core == "" <==> AllSpace(s)
  {
    hide IsSpace;
    if core != "" {
      assert core[0] in s;
    }
  }

  // Go's < on strings.
  predicate Less(a: string, b: string) {
    b != [] && (a == [] || a[0] < b[0] || (a[0] == b[0] && Less(a[1..], b[1..])))
  }

  lemma LessTrichotomy(a: string, b: string)
    ensures Less(a, b) || a == b || Less(b, a)
    ensures !(Less(a, b) && Less(b, a))
    ensures !Less(a, a)
  {
    if a != [] && b != [] && a[0] == b[0] {
      LessTrichotomy(a[1..], b[1..]);
      assert a == [a[0]] + a[1..] && b == [b[0]] + b[1..];
    }
    if a != [] {
      LessTrichotomy(a[1..], a[1..]);
    }
  }

  // The first difference decides, or else the shorter string comes first.
  lemma {:induction false} LessExactly(a: string, b: string, common: string)
    ensures Less(common + a, common + b) <==> Less(a, b)
    ensures a != [] && b != [] && a[0] != b[0] ==> (Less(a, b) <==> a[0] as int < b[0] as int)
    ensures Less([], b) <==> b != []
    ensures !Less(a, [])
    decreases |common|
  {
    if common != [] {
      LessExactly(a, b, common[1..]);
      assert (common + a)[1..] == common[1..] + a && (common + b)[1..] == common[1..] + b;
    } else {
      assert common + a == a && common + b == b;
    }
  }

  lemma LessTransitive(a: string, b: string, c: string)
    requires Less(a, b) && Less(b, c)
    ensures Less(a, c)
  {
  }
}
