/**
 * Names of symbols as pointers into a string table, and the order in which they are sorted: by their text, ignoring
 * leading underscores, at-signs and case.
 */
module SymbolOrder {
  import opened CStrings

  /** The C string a name points at. */
  function NameAt(tab: seq<char>, i: nat): string
    requires i <= |tab|
  {
    Text(tab[i..])
  }

  /** What `strchr("_@", c)` finds: the two characters, and the NUL that ends the searched string. */
  predicate Skipped(c: char) { c == '_' || c == '@' || c == NUL }

  /** Some character from i on stops the skipping; without one, it runs off the table. */
  ghost predicate Stops(tab: seq<char>, i: nat) {
    exists k :: i <= k < |tab| && !Skipped(tab[k])
  }

  /** Where skipping from i ends. A name made of skipped characters only runs on into the next name. */
  function Skip(tab: seq<char>, i: nat): (k: nat)
    requires Stops(tab, i)
    ensures i <= k < |tab| && !Skipped(tab[k])
    ensures forall j :: i <= j < k ==> Skipped(tab[j])
    decreases |tab| - i
  {
    if Skipped(tab[i]) then Skip(tab, i + 1) else i
  }

  function ToLower(c: char): char {
    if 'A' <= c <= 'Z' then (c as int + 0x20) as char else c
  }

  function Lower(s: string): (t: string)
    ensures |t| == |s|
    ensures forall i :: 0 <= i < |s| ==> t[i] == ToLower(s[i])
  {
    if s == "" then "" else [ToLower(s[0])] + Lower(s[1..])
  }

  /** `strcmp`: the difference of the first characters that differ, the terminating NUL counting as 0. */
  function StrCmp(a: string, b: string): int {
    if a == "" && b == "" then 0
    else if a == "" then -(b[0] as int)
    else if b == "" then a[0] as int
    else if a[0] != b[0] then a[0] as int - b[0] as int
    else StrCmp(a[1..], b[1..])
  }

  /** `strcasecmp` in the C locale. */
  function StrCaseCmp(a: string, b: string): int {
    StrCmp(Lower(a), Lower(b))
  }

  /** What a name is sorted by: its text in mode 24, otherwise its text after the skipping, in lower case. */
  function Key(tab: seq<char>, mode: int, i: nat): string
    requires i <= |tab| && Stops(tab, i)
  {
    if mode == 24 then NameAt(tab, i) else Lower(NameAt(tab, Skip(tab, i)))
  }

  /** The order of a dictionary, by character codes: a runs out first, or is smaller where the two first differ. */
  ghost predicate Before(a: string, b: string) {
    a <= b || exists k: nat :: DifferFirst(a, b, k) && a[k] < b[k]
  }

  ghost predicate DifferFirst(a: string, b: string, k: nat) {
    k < |a| && k < |b| && a[..k] == b[..k] && a[k] != b[k]
  }

  /** What a name is sorted by, without regard to how it is found: where the skipping stops, and the folded text. */
  lemma KeyIs(tab: seq<char>, mode: int, i: nat) returns (k: nat)
    requires i <= |tab| && Stops(tab, i) && mode != 24
    ensures i <= k < |tab| && tab[k] !in {'_', '@', '\0'}
    ensures forall j :: i <= j < k ==> tab[j] in {'_', '@', '\0'}
    ensures var t := Text(tab[k..]);
            && |Key(tab, mode, i)| == |t|
            && forall j :: 0 <= j < |t| ==>
                 Key(tab, mode, i)[j] == if 'A' <= t[j] <= 'Z' then t[j] - 'A' + 'a' else t[j]
  {
    k := Skip(tab, i);
  }

  /** The key of a name starts with the first character that stops the skipping, folded. */
  lemma KeyStarts(tab: seq<char>, i: nat, k: nat)
    requires i <= k < |tab| && !Skipped(tab[k]) && forall j :: i <= j < k ==> Skipped(tab[j])
    ensures Stops(tab, i) && Key(tab, 0, i) != "" && Key(tab, 0, i)[0] == ToLower(tab[k])
  {
    var m := KeyIs(tab, 0, i);
    assert m == k;
    assert Text(tab[k..])[0] == tab[k];
  }

  // ----- a total preorder

  predicate NulFree(s: string) { NUL !in s }

  lemma BeforeStep(a: string, b: string)
    requires a != "" && b != "" && a[0] == b[0]
    ensures Before(a, b) <==> Before(a[1..], b[1..])
  {
    if a <= b {
      assert a[1..] <= b[1..];
    }
    if a[1..] <= b[1..] {
      assert a == [a[0]] + a[1..] && b == [b[0]] + b[1..];
    }
    if k: nat :| DifferFirst(a, b, k) && a[k] < b[k] {
      assert k > 0;
      assert a[..k][1..] == a[1..][..k - 1] && b[..k][1..] == b[1..][..k - 1];
      assert DifferFirst(a[1..], b[1..], k - 1) && a[1..][k - 1] < b[1..][k - 1];
    }
    if k: nat :| DifferFirst(a[1..], b[1..], k) && a[1..][k] < b[1..][k] {
      assert a[..k + 1] == [a[0]] + a[1..][..k] && b[..k + 1] == [b[0]] + b[1..][..k];
      assert DifferFirst(a, b, k + 1) && a[k + 1] < b[k + 1];
    }
  }

  lemma SameStart(a: string, b: string, k: nat)
    requires DifferFirst(a, b, k)
    ensures k > 0 ==> a[0] == b[0]
  {
    if k > 0 {
      assert a[..k][0] == b[..k][0];
    }
  }

  /** `strcmp` decides by the order of a dictionary. */
  lemma {:induction false} StrCmpIsBefore(a: string, b: string)
    requires NulFree(a) && NulFree(b)
    ensures StrCmp(a, b) <= 0 <==> Before(a, b)
  {
    if a != "" && b != "" {
      if a[0] == b[0] {
        StrCmpIsBefore(a[1..], b[1..]);
        BeforeStep(a, b);
      } else {
        assert DifferFirst(a, b, 0);
        forall k: nat | DifferFirst(a, b, k)
          ensures k == 0
        {
          SameStart(a, b, k);
        }
      }
    } else if a != "" {
      assert a[0] in a;
    }
  }

  lemma {:induction false} CmpAntisymmetric(a: string, b: string)
    ensures StrCmp(a, b) == -StrCmp(b, a)
  {
    if a != "" && b != "" && a[0] == b[0] {
      CmpAntisymmetric(a[1..], b[1..]);
    }
  }

  lemma CmpDecides(a: string, b: string)
    requires NulFree(a) && NulFree(b)
    ensures StrCmp(a, b) <= 0 <==> Before(a, b)
    ensures StrCmp(a, b) >= 0 <==> Before(b, a)
  {
    StrCmpIsBefore(a, b);
    StrCmpIsBefore(b, a);
    CmpAntisymmetric(a, b);
  }

  lemma {:induction false} CmpZero(a: string, b: string)
    requires NulFree(a) && NulFree(b)
    ensures StrCmp(a, b) == 0 <==> a == b
  {
    if a != "" && b != "" && a[0] == b[0] {
      CmpZero(a[1..], b[1..]);
      assert a == [a[0]] + a[1..] && b == [b[0]] + b[1..];
    }
  }

  lemma {:induction false} BeforeTransitive(a: string, b: string, c: string)
    requires NulFree(a) && NulFree(b) && NulFree(c)
    requires StrCmp(a, b) <= 0 && StrCmp(b, c) <= 0
    ensures StrCmp(a, c) <= 0
  {
    if a != "" && b != "" && c != "" && a[0] == b[0] == c[0] {
      BeforeTransitive(a[1..], b[1..], c[1..]);
    }
  }

  lemma KeyNulFree(tab: seq<char>, mode: int, i: nat)
    requires i <= |tab| && Stops(tab, i)
    ensures NulFree(Key(tab, mode, i))
  {
  }

  lemma StringsArePreordered(a: string, b: string, c: string)
    requires NulFree(a) && NulFree(b) && NulFree(c)
    ensures Before(a, b) || Before(b, a)
    ensures Before(a, b) && Before(b, c) ==> Before(a, c)
    ensures Before(a, b) && Before(b, a) <==> a == b
  {
    CmpAntisymmetric(a, b);
    CmpZero(a, b);
    StrCmpIsBefore(a, b);
    StrCmpIsBefore(b, a);
    StrCmpIsBefore(b, c);
    StrCmpIsBefore(a, c);
    if Before(a, b) && Before(b, c) {
      BeforeTransitive(a, b, c);
    }
  }

  /** The order of keys is total and transitive, and equal rank means equal keys. */
  lemma KeysArePreordered(tab: seq<char>, mode: int, i: nat, j: nat, k: nat)
    requires i <= |tab| && j <= |tab| && k <= |tab| && Stops(tab, i) && Stops(tab, j) && Stops(tab, k)
    ensures var a, b, c := Key(tab, mode, i), Key(tab, mode, j), Key(tab, mode, k);
            && (Before(a, b) || Before(b, a))
            && (Before(a, b) && Before(b, c) ==> Before(a, c))
            && (Before(a, b) && Before(b, a) <==> a == b)
  {
    KeyNulFree(tab, mode, i);
    KeyNulFree(tab, mode, j);
    KeyNulFree(tab, mode, k);
    StringsArePreordered(Key(tab, mode, i), Key(tab, mode, j), Key(tab, mode, k));
  }

  /** `yolo_cmp` */
  method YoloCmp(tab: seq<char>, a: nat, b: nat) returns (r: int)
    requires a <= |tab| && b <= |tab| && Stops(tab, a) && Stops(tab, b)
    ensures r <= 0 <==> Before(Key(tab, 0, a), Key(tab, 0, b))
    ensures r >= 0 <==> Before(Key(tab, 0, b), Key(tab, 0, a))
  {
    var i, j := a, b;
    while Skipped(tab[i])
      invariant a <= i <= Skip(tab, a)
      decreases Skip(tab, a) - i
    {
      i := i + 1;
    }
    while Skipped(tab[j])
      invariant b <= j <= Skip(tab, b)
      decreases Skip(tab, b) - j
    {
      j := j + 1;
    }
    r := StrCaseCmp(NameAt(tab, i), NameAt(tab, j));
    KeyNulFree(tab, 0, a);
    KeyNulFree(tab, 0, b);
    CmpDecides(Key(tab, 0, a), Key(tab, 0, b));
  }
}
