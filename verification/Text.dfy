/** Strings as the service sees them: prefixes, the fixed character rules of
    keys and names, and the orders used to sort text. */
module Text {

  datatype Option<+T> = None | Some(value: T) {
    function GetOr(default: T): T {
      match this
      case Some(v) => v
      case None => default
    }
  }

  predicate StartsWith(s: string, prefix: string) {
    |prefix| <= |s| && s[..|prefix|] == prefix
  }

  predicate EndsWith(s: string, suffix: string) {
    |suffix| <= |s| && s[|s| - |suffix|..] == suffix
  }

  predicate IsLower(c: char) { 'a' <= c <= 'z' }

  predicate IsLetter(c: char) { IsLower(c) || 'A' <= c <= 'Z' }

  predicate IsDigit(c: char) { '0' <= c <= '9' }

  // ^[A-Za-z_][A-Za-z0-9._-]*$ and at most 512 characters: a key value in a URL.
  predicate KeyValueOk(s: string) {
    && 0 < |s| <= 512
    && (IsLetter(s[0]) || s[0] == '_')
    && forall i | 0 < i < |s| :: KeyValueChar(s[i])
  }

  predicate KeyValueChar(c: char) { IsLetter(c) || IsDigit(c) || c == '.' || c == '_' || c == '-' }

  // ^[A-Za-z0-9][A-Za-z0-9_-]*$: a key of a JSON object.
  predicate JsonKeyOk(s: string) {
    && 0 < |s|
    && (IsLetter(s[0]) || IsDigit(s[0]))
    && forall i | 0 < i < |s| :: WordChar(s[i])
  }

  predicate WordChar(c: char) { IsLetter(c) || IsDigit(c) || c == '_' || c == '-' }

  // ^[a-z][a-z0-9_]*$: a table or index name.
  predicate NameOk(s: string) {
    && 0 < |s|
    && IsLower(s[0])
    && forall i | 0 < i < |s| :: IsLower(s[i]) || IsDigit(s[i]) || s[i] == '_'
  }

  // ^[A-Za-z][A-Za-z0-9_-]*$: the name of a key field.
  predicate KeyFieldOk(s: string) {
    && 0 < |s|
    && IsLetter(s[0])
    && forall i | 0 < i < |s| :: WordChar(s[i])
  }

  // ---------- the rules by their alphabets ----------

  const LOWER := "abcdefghijklmnopqrstuvwxyz"
  const UPPER := "ABCDEFGHIJKLMNOPQRSTUVWXYZ"
  const DIGITS := "0123456789"

  lemma Alphabet(letters: string, first: char, c: char)
    requires forall i | 0 <= i < |letters| :: letters[i] as int == first as int + i
    ensures c in letters <==> first as int <= c as int < first as int + |letters|
  {
    if first as int <= c as int < first as int + |letters| {
      assert letters[c as int - first as int] == c;
    }
  }

  lemma Classes(c: char)
    ensures (IsLower(c) <==> c in LOWER) && (IsLetter(c) <==> c in LOWER + UPPER) && (IsDigit(c) <==> c in DIGITS)
  {
    Alphabet(LOWER, 'a', c);
    Alphabet(UPPER, 'A', c);
    Alphabet(DIGITS, '0', c);
  }

  // The first character is of one alphabet and all others are of another.
  predicate Spelled(s: string, first: string, others: string) {
    s != "" && s[0] in first && forall i | 0 < i < |s| :: s[i] in others
  }

  // The four rules are the four regular expressions of the service.
  lemma RulesAre(s: string)
    ensures KeyValueOk(s) <==> Spelled(s, LOWER + UPPER + "_", LOWER + UPPER + DIGITS + "._-") && |s| <= 512
    ensures JsonKeyOk(s) <==> Spelled(s, LOWER + UPPER + DIGITS, LOWER + UPPER + DIGITS + "_-")
    ensures NameOk(s) <==> Spelled(s, LOWER, LOWER + DIGITS + "_")
    ensures KeyFieldOk(s) <==> Spelled(s, LOWER + UPPER, LOWER + UPPER + DIGITS + "_-")
  {
    forall c { Classes(c); }
    assert forall c :: c in "._-" <==> c == '.' || c == '_' || c == '-';
    assert forall c :: c in "_-" <==> c == '_' || c == '-';
    assert forall c :: c in "_" <==> c == '_';
  }

  // What a collation gives the queries: a strict total order on text.
  ghost predicate StrictTotalOrder(lt: (string, string) -> bool) {
    && (forall a :: !lt(a, a))
    && (forall a, b, c :: lt(a, b) && lt(b, c) ==> lt(a, c))
    && (forall a, b :: a != b ==> lt(a, b) || lt(b, a))
  }

  // The order of Go's < on strings.
  predicate LexLt(a: string, b: string) {
    if b == "" then false
    else if a == "" then true
    else a[0] < b[0] || (a[0] == b[0] && LexLt(a[1..], b[1..]))
  }

  // After a common beginning the first text ends, or goes on with a smaller character.
  predicate SmallerAt(a: string, b: string, i: nat) {
    i <= |a| && i < |b| && a[..i] == b[..i] && (i == |a| || a[i] < b[i])
  }

  lemma {:induction false} LexLtIff(a: string, b: string)
    ensures LexLt(a, b) <==> exists i: nat :: SmallerAt(a, b, i)
  {
    if a == "" || b == "" || a[0] != b[0] {
      if b != "" && (a == "" || a[0] < b[0]) {
        assert SmallerAt(a, b, 0);
      } else {
        forall i: nat ensures !SmallerAt(a, b, i) {
          if 0 < i <= |a| && i < |b| {
            assert a[..i][0] == a[0] && b[..i][0] == b[0];
          }
        }
      }
    } else {
      LexLtIff(a[1..], b[1..]);
      if i: nat :| SmallerAt(a[1..], b[1..], i) {
        assert a[..i + 1] == [a[0]] + a[1..][..i] && b[..i + 1] == [b[0]] + b[1..][..i];
        assert SmallerAt(a, b, i + 1);
      }
      if i: nat :| SmallerAt(a, b, i) {
        assert i > 0;
        assert a[1..][..i - 1] == a[..i][1..] && b[1..][..i - 1] == b[..i][1..];
        assert SmallerAt(a[1..], b[1..], i - 1);
      }
    }
  }

  lemma {:induction false} LexLtIrreflexive(a: string)
    ensures !LexLt(a, a)
  {
    if a != "" { LexLtIrreflexive(a[1..]); }
  }

  lemma {:induction false} LexLtTransitive(a: string, b: string, c: string)
    requires LexLt(a, b) && LexLt(b, c)
    ensures LexLt(a, c)
  {
    if a != "" && a[0] == b[0] == c[0] { LexLtTransitive(a[1..], b[1..], c[1..]); }
  }

  lemma {:induction false} LexLtTotal(a: string, b: string)
    ensures a == b || LexLt(a, b) || LexLt(b, a)
  {
    if a != "" && b != "" && a[0] == b[0] {
      LexLtTotal(a[1..], b[1..]);
      assert a == [a[0]] + a[1..] && b == [b[0]] + b[1..];
    }
  }

  lemma LexLtStrictTotal()
    ensures StrictTotalOrder(LexLt)
  {
    forall a { LexLtIrreflexive(a); }
    forall a, b, c | LexLt(a, b) && LexLt(b, c) ensures LexLt(a, c) { LexLtTransitive(a, b, c); }
    forall a, b ensures a == b || LexLt(a, b) || LexLt(b, a) { LexLtTotal(a, b); }
  }
}
