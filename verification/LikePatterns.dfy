/** SQL LIKE with its default escape character, and what the rkBeginsWith filter makes of it. */
module LikePatterns {
  import opened Text

  // '%' matches any text, '_' any one character, '\c' the character c. A pattern that ends in an
  // unpaired '\' is an error in PostgreSQL; a prefix followed by '%' never does.
  predicate Like(s: string, pattern: string)
    decreases |s| + |pattern|
  {
    if pattern == "" then s == ""
    else if pattern[0] == '%' then Like(s, pattern[1..]) || (s != "" && Like(s[1..], pattern))
    else if s == "" then false
    else if pattern[0] == '_' then Like(s[1..], pattern[1..])
    else if pattern[0] == '\\' then |pattern| > 1 && s[0] == pattern[1] && Like(s[1..], pattern[2..])
    else s[0] == pattern[0] && Like(s[1..], pattern[1..])
  }

  // The filter rkBeginsWith=prefix.
  predicate BeginsWithFilter(s: string, prefix: string) {
    Like(s, prefix + "%")
  }

  predicate Plain(prefix: string) {
    forall i | 0 <= i < |prefix| :: prefix[i] != '_' && prefix[i] != '%' && prefix[i] != '\\'
  }

  lemma {:induction false} LikeAnything(s: string)
    ensures Like(s, "%")
  {
    if s != "" {
      LikeAnything(s[1..]);
    }
  }

  lemma {:induction false} PlainPrefixIsPrefix(s: string, prefix: string)
    requires Plain(prefix)
    ensures BeginsWithFilter(s, prefix) <==> StartsWith(s, prefix)
  {
    if prefix == "" {
      LikeAnything(s);
      assert prefix + "%" == "%";
    } else {
      assert (prefix + "%")[1..] == prefix[1..] + "%";
      if s != "" {
        PlainPrefixIsPrefix(s[1..], prefix[1..]);
        assert StartsWith(s, prefix) <==> s[0] == prefix[0] && StartsWith(s[1..], prefix[1..]) by {
          assert s == [s[0]] + s[1..] && prefix == [prefix[0]] + prefix[1..];
        }
      }
    }
  }

  // For any prefix at all, no key that begins with it is lost.
  lemma {:induction false} FilterKeepsKeys(s: string, prefix: string)
    requires forall i | 0 <= i < |s| :: KeyValueChar(s[i])
    requires StartsWith(s, prefix)
    ensures BeginsWithFilter(s, prefix)
  {
    if prefix == "" {
      LikeAnything(s);
      assert prefix + "%" == "%";
    } else {
      assert (prefix + "%")[1..] == prefix[1..] + "%";
      assert prefix[0] == s[0];
      FilterKeepsKeys(s[1..], prefix[1..]);
    }
  }

  // A text that the filter for prefix accepts: each '%' matched by nothing, each '_' by an 'x'.
  function Accepted(prefix: string): string {
    if prefix == "" then ""
    else if prefix[0] == '%' then Accepted(prefix[1..])
    else if prefix[0] == '_' then "x" + Accepted(prefix[1..])
    else if prefix == "\\" then "%"
    else if prefix[0] == '\\' then [prefix[1]] + Accepted(prefix[2..])
    else [prefix[0]] + Accepted(prefix[1..])
  }

  lemma {:induction false} AcceptedIsAccepted(prefix: string)
    ensures BeginsWithFilter(Accepted(prefix), prefix)
    ensures |Accepted(prefix)| <= |prefix|
    ensures Accepted(prefix) == prefix ==> Plain(prefix)
  {
    var pattern := prefix + "%";
    if prefix == "" {
    } else if prefix == "\\" {
      assert pattern[2..] == "";
    } else if prefix[0] == '\\' {
      AcceptedIsAccepted(prefix[2..]);
      assert pattern[2..] == prefix[2..] + "%";
    } else {
      AcceptedIsAccepted(prefix[1..]);
      assert pattern[1..] == prefix[1..] + "%";
      assert Accepted(prefix) == prefix ==> Accepted(prefix[1..]) == prefix[1..];
      assert prefix == [prefix[0]] + prefix[1..];
    }
  }

  // The filter is the prefix test on all texts exactly when the prefix has no '_', '%' or '\'.
  lemma FilterIsPrefixIff(prefix: string)
    ensures (forall s :: BeginsWithFilter(s, prefix) <==> StartsWith(s, prefix)) <==> Plain(prefix)
  {
    if Plain(prefix) {
      forall s
        ensures BeginsWithFilter(s, prefix) <==> StartsWith(s, prefix)
      {
        PlainPrefixIsPrefix(s, prefix);
      }
    } else {
      var s := Accepted(prefix);
      AcceptedIsAccepted(prefix);
      assert !StartsWith(s, prefix);
    }
  }
}
