/** The namespace of a noisy secret: a domain name reversed, with its dots as single
    underscores and its hyphens as double ones, behind a length character. */
module Namespaces {
  import opened Wrappers
  import opened Text
  import opened NoisyAlphabet

  datatype NamespaceError = InvalidComponent | HyphenAtEdge | EmptyComponent | TooLong

  // ----- the encoder -----

  function CheckComponent(component: string): Option<NamespaceError> {
    if !OverComponent(component) then Some(InvalidComponent)
    else if component != "" && (component[0] == '-' || component[|component| - 1] == '-') then Some(HyphenAtEdge)
    else if component == "" then Some(EmptyComponent)
    else None
  }

  /** The complaint about the first component that is refused. */
  function CheckComponents(components: seq<string>): Option<NamespaceError> {
    if components == [] then None
    else
      var first := CheckComponent(components[0]);
      if first.Some? then first else CheckComponents(components[1..])
  }

  function EncodeHyphens(s: string): string {
    if s == "" then ""
    else (if s[0] == '-' then "__" else [s[0]]) + EncodeHyphens(s[1..])
  }

  function EncodeAll(components: seq<string>): (r: seq<string>)
    ensures |r| == |components|
  {
    seq(|components|, i requires 0 <= i < |components| => EncodeHyphens(components[i]))
  }

  function Suffix(domain: string): string {
    Join(EncodeAll(Reverse(Split(domain, '.'))), '_')
  }

  function NamespaceOf(fqdn: Option<string>): Result<string, NamespaceError> {
    match fqdn
    case None => Ok("2")
    case Some(domain) =>
      var refused := CheckComponents(Split(domain, '.'));
      if refused.Some? then Err(refused.value)
      else if |Suffix(domain)| > 30 then Err(TooLong)
      else Ok([Base32Char(|Suffix(domain)| + 1)] + "_" + Suffix(domain))
  }

  method ConstructNamespace(fqdn: Option<string>) returns (r: Result<string, NamespaceError>)
    ensures r == NamespaceOf(fqdn)
  {
    if fqdn.None? {
      return Ok("2");
    }
    var components := Split(fqdn.value, '.');
    for i := 0 to |components|
      invariant CheckComponents(components) == CheckComponents(components[i..])
    {
      var refused := CheckComponent(components[i]);
      if refused.Some? {
        return Err(refused.value);
      }
      assert components[i..][1..] == components[i + 1..];
    }
    assert components[|components|..] == [];
    var reversed := Reverse(components);
    ghost var original := reversed;
    for i := 0 to |reversed|
      invariant |reversed| == |original|
      invariant forall j | 0 <= j < i :: reversed[j] == EncodeHyphens(original[j])
      invariant forall j | i <= j < |reversed| :: reversed[j] == original[j]
    {
      reversed := reversed[i := EncodeHyphens(reversed[i])];
    }
    assert reversed == EncodeAll(original);
    var joined := Join(reversed, '_');
    if |joined| > 30 {
      return Err(TooLong);
    }
    return Ok([Base32Char(|joined| + 1)] + "_" + joined);
  }

  // ----- the decoder and the syntax check -----

  /** Every leftmost pair of underscores read back as a hyphen. */
  function DecodeHyphens(s: string): string {
    if |s| >= 2 && s[0] == '_' && s[1] == '_' then "-" + DecodeHyphens(s[2..])
    else if s == "" then ""
    else [s[0]] + DecodeHyphens(s[1..])
  }

  function DomainOf(namespace: string): Option<string> {
    if namespace == "2" then None
    else
      var suffix := if |namespace| < 2 then "" else namespace[2..];
      Some(Join(Reverse(Split(DecodeHyphens(suffix), '_')), '.'))
  }

  predicate IsNamespaceSuffix(suffix: string)
    requires suffix != ""
  {
    Base36(suffix[0]) &&
    (|suffix| == 1 ||
     (Base36(suffix[|suffix| - 1]) && (|suffix| == 2 || OverBase37(suffix[1..|suffix| - 1]))))
  }

  predicate IsNamespaceString(value: string) {
    value != "" &&
    var i := Base32Find(value[0]);
    i != -1 && i != 1 &&
    if |value| == 1 then value[0] == '2' && i == 0
    else |value| == i + 1 && value[1] == '_' && IsNamespaceSuffix(value[2..])
  }

  /** A namespace string is a two, or is as long as its first character says, with an underscore second and neither
      third nor last. */
  lemma NamespaceStringsExactly(value: string)
    ensures IsNamespaceString(value) <==>
            || value == "2"
            || (&& 3 <= |value| <= 32 && value[0] == Base32Char(|value| - 1) && value[1] == '_'
                && OverBase37(value) && value[2] != '_' && value[|value| - 1] != '_')
  {
    hide IsNamespaceSuffix, OverBase37;
    if value != "" && Base32(value[0]) {
      Base32CharFind(value[0]);
    }
    if |value| >= 3 && Base37(value[0]) && value[1] == '_' {
      SuffixByCharacters(value);
    }
  }

  lemma Base32CharFind(c: char)
    requires Base32(c)
    ensures Base32Char(Base32Find(c)) == c
  {
  }

  lemma SuffixByCharacters(value: string)
    requires |value| >= 3 && Base37(value[0]) && value[1] == '_'
    ensures IsNamespaceSuffix(value[2..]) <==> OverBase37(value) && value[2] != '_' && value[|value| - 1] != '_'
  {
    var s := value[2..];
    assert forall i | 2 <= i < |value| :: value[i] == s[i - 2];
    if IsNamespaceSuffix(s) {
      forall i | 0 <= i < |value|
        ensures Base37(value[i])
      {
        if 2 < i < |value| - 1 {
          assert value[i] == s[1..|s| - 1][i - 3];
        }
      }
    }
  }

  // ----- round trip -----

  predicate Accepted(component: string) {
    component != "" && OverComponent(component) && component[0] != '-' && component[|component| - 1] != '-'
  }

  lemma {:induction false} AcceptedComponents(components: seq<string>)
    ensures CheckComponents(components).None? <==> forall c | c in components :: Accepted(c)
  {
    if components != [] {
      AcceptedComponents(components[1..]);
      assert forall c | c in components :: c == components[0] || c in components[1..];
      assert components[0] in components;
    }
  }

  predicate NoUnderscore(s: string) {
    '_' !in s
  }

  lemma AcceptedNoUnderscore(component: string)
    requires Accepted(component)
    ensures NoUnderscore(component)
  {
  }

  lemma DecodeFirst(c: char, tail: string)
    ensures DecodeHyphens("__" + tail) == "-" + DecodeHyphens(tail)
    ensures c != '_' ==> DecodeHyphens([c] + tail) == [c] + DecodeHyphens(tail)
  {
    assert ("__" + tail)[2..] == tail && ([c] + tail)[1..] == tail;
  }

  /** Decoding undoes the encoding of one component, whatever follows it. */
  lemma {:induction false} DecodeComponent(component: string, rest: string)
    requires NoUnderscore(component)
    ensures DecodeHyphens(EncodeHyphens(component) + rest) == component + DecodeHyphens(rest)
  {
    hide DecodeHyphens;
    if component == "" {
      assert EncodeHyphens(component) + rest == rest;
    } else {
      var c, tail := component[0], EncodeHyphens(component[1..]) + rest;
      DecodeComponent(component[1..], rest);
      DecodeFirst(c, tail);
      assert component == [c] + component[1..] && c in component;
      assert EncodeHyphens(component) + rest == (if c == '-' then "__" else [c]) + tail;
    }
  }

  /** A single underscore before anything but an underscore survives decoding as a separator. */
  lemma DecodeStep(component: string, tail: string)
    requires NoUnderscore(component) && tail != "" && tail[0] != '_'
    ensures DecodeHyphens(EncodeHyphens(component) + ['_'] + tail) == component + ['_'] + DecodeHyphens(tail)
  {
    DecodeComponent(component, ['_'] + tail);
    assert EncodeHyphens(component) + ['_'] + tail == EncodeHyphens(component) + (['_'] + tail);
    assert (['_'] + tail)[1..] == tail;
  }

  lemma {:induction false} DecodeJoined(components: seq<string>)
    requires |components| >= 1 && forall c | c in components :: Accepted(c)
    ensures DecodeHyphens(Join(EncodeAll(components), '_')) == Join(components, '_')
  {
    var first := components[0];
    AcceptedNoUnderscore(first);
    if |components| == 1 {
      DecodeComponent(first, "");
      assert EncodeHyphens(first) + "" == EncodeHyphens(first);
    } else {
      var rest := components[1..];
      DecodeJoined(rest);
      assert EncodeAll(components)[1..] == EncodeAll(rest);
      JoinedStart(rest);
      DecodeStep(first, Join(EncodeAll(rest), '_'));
    }
  }

  /** A joined suffix is not empty and starts with a character other than an underscore. */
  lemma JoinedStart(components: seq<string>)
    requires |components| >= 1 && forall c | c in components :: Accepted(c)
    ensures var s := Join(EncodeAll(components), '_'); s != "" && Base36(s[0])
  {
    var c := components[0];
    assert c in components;
    assert c[0] in c;
    assert EncodeHyphens(c) == [c[0]] + EncodeHyphens(c[1..]);
  }

  /** Decoding the namespace of an accepted domain gives the domain back, repeated hyphens included. */
  lemma NamespaceRoundTrip(fqdn: Option<string>)
    requires NamespaceOf(fqdn).Ok?
    ensures DomainOf(NamespaceOf(fqdn).value) == fqdn
  {
    hide Join, Split, Reverse, EncodeAll, DecodeHyphens, Accepted;
    if fqdn.Some? {
      var domain := fqdn.value;
      var components := Split(domain, '.');
      var reversed := Reverse(components);
      AcceptedComponents(components);
      assert forall c | c in reversed :: c in components;
      DecodeJoined(reversed);
      var namespace := NamespaceOf(fqdn).value;
      assert namespace[2..] == Suffix(domain);
      forall c | c in reversed
        ensures '_' !in c
      {
        AcceptedNoUnderscore(c);
      }
      SplitJoin(reversed, '_');
      assert Reverse(reversed) == components;
      JoinSplit(domain, '.');
    }
  }

  // ----- what is constructed passes the syntax check -----

  lemma {:induction false} EncodedOver(component: string)
    requires OverComponent(component)
    ensures OverBase37(EncodeHyphens(component))
  {
    if component != "" {
      EncodedOver(component[1..]);
    }
  }

  lemma {:induction false} EncodedEnd(component: string)
    requires component != "" && component[|component| - 1] != '-'
    ensures var e := EncodeHyphens(component); e != "" && e[|e| - 1] == component[|component| - 1]
  {
    if |component| > 1 {
      EncodedEnd(component[1..]);
    } else {
      assert EncodeHyphens(component[1..]) == "";
    }
  }

  lemma {:induction false} JoinedOver(components: seq<string>)
    requires |components| >= 1 && forall c | c in components :: Accepted(c)
    ensures var s := Join(EncodeAll(components), '_');
            OverBase37(s) && s != "" && Base36(s[|s| - 1])
  {
    assert components[0] in components;
    EncodedOver(components[0]);
    if |components| == 1 {
      EncodedEnd(components[0]);
    } else {
      JoinedOver(components[1..]);
      assert EncodeAll(components)[1..] == EncodeAll(components[1..]);
    }
  }

  lemma ConstructedIsNamespace(fqdn: Option<string>)
    requires NamespaceOf(fqdn).Ok?
    ensures IsNamespaceString(NamespaceOf(fqdn).value)
  {
    if fqdn.Some? {
      var components := Split(fqdn.value, '.');
      var reversed := Reverse(components);
      AcceptedComponents(components);
      forall c | c in reversed
        ensures Accepted(c)
      {
        assert c in components;
      }
      JoinedStart(reversed);
      JoinedOver(reversed);
      LengthPrefixed(Suffix(fqdn.value));
    }
  }

  lemma LengthPrefixed(s: string)
    requires s != "" && |s| <= 30 && OverBase37(s) && Base36(s[0]) && Base36(s[|s| - 1])
    ensures IsNamespaceString([Base32Char(|s| + 1)] + "_" + s)
  {
    var value := [Base32Char(|s| + 1)] + "_" + s;
    assert value[2..] == s;
  }

  /** Every namespace string has length 1 or 3 to 32 and stays within the field alphabet. */
  lemma NamespaceShape(value: string)
    requires IsNamespaceString(value)
    ensures |value| == 1 || 3 <= |value| <= 32
    ensures OverBase37(value)
  {
    if |value| > 1 {
      var s := value[2..];
      forall i | 0 <= i < |value|
        ensures Base37(value[i])
      {
        if 3 <= i < |value| - 1 {
          assert value[i] == s[1..|s| - 1][i - 3];
        }
      }
    }
  }

  // ----- which domains have a namespace, and which one -----

  predicate IsAlphanumeric(c: char) {
    c in "abcdefghijklmnopqrstuvwxyz" || c in "0123456789"
  }

  /** Lower-case letters, digits, hyphens and dots, with a letter or digit at both ends and on both sides of every
      dot. */
  predicate IsDomain(d: string) {
    && d != "" && IsAlphanumeric(d[0]) && IsAlphanumeric(d[|d| - 1])
    && (forall i | 0 <= i < |d| :: IsAlphanumeric(d[i]) || d[i] == '-' || d[i] == '.')
    && (forall i | 0 < i < |d| - 1 && d[i] == '.' :: IsAlphanumeric(d[i - 1]) && IsAlphanumeric(d[i + 1]))
  }

  function Hyphens(s: string): nat {
    if s == "" then 0 else (if s[0] == '-' then 1 else 0) + Hyphens(s[1..])
  }

  lemma AlphanumericIs(c: char)
    ensures IsAlphanumeric(c) <==> Base36(c)
  {
    LettersAre(c);
    DigitsAre(c);
  }

  lemma LettersAre(c: char)
    ensures c in "abcdefghijklmnopqrstuvwxyz" <==> 'a' <= c <= 'z'
  {
  }

  lemma DigitsAre(c: char)
    ensures c in "0123456789" <==> '0' <= c <= '9'
  {
  }

  /** A component is accepted exactly when it is a domain without dots. */
  lemma ComponentIsDomain(c: string)
    requires '.' !in c
    ensures Accepted(c) <==> IsDomain(c)
  {
    forall x: char
      ensures IsAlphanumeric(x) <==> Base36(x)
    {
      AlphanumericIs(x);
    }
    assert forall i | 0 <= i < |c| :: c[i] in c;
  }

  lemma DotsSeparate(head: string, tail: string)
    requires '.' !in head
    ensures IsDomain(head + "." + tail) <==> IsDomain(head) && IsDomain(tail)
  {
    hide IsDomain;
    if IsDomain(head + "." + tail) {
      JoinedDomain(head + "." + tail, head, tail);
    }
    if IsDomain(head) && IsDomain(tail) {
      BothDomains(head + "." + tail, head, tail);
    }
  }

  lemma BothDomains(d: string, head: string, tail: string)
    requires IsDomain(head) && IsDomain(tail) && d == head + "." + tail && '.' !in head
    ensures IsDomain(d)
  {
    hide IsAlphanumeric;
    var n := |head|;
    assert d[n] == '.' && |d| == n + 1 + |tail|;
    assert d[0] == head[0] && d[|d| - 1] == tail[|tail| - 1];
    assert d[n - 1] == head[n - 1] && d[n + 1] == tail[0];
    assert forall k | 0 <= k < n :: d[k] == head[k] && head[k] in head;
    forall i | 0 <= i < |d|
      ensures IsAlphanumeric(d[i]) || d[i] == '-' || d[i] == '.'
    {
      assert i < n ==> d[i] == head[i];
      assert i > n ==> d[i] == tail[i - n - 1];
    }
    forall i | 0 < i < |d| - 1 && d[i] == '.'
      ensures IsAlphanumeric(d[i - 1]) && IsAlphanumeric(d[i + 1])
    {
      if i > n {
        TailDot(d, head, tail, i);
      }
    }
  }

  lemma TailDot(d: string, head: string, tail: string, i: nat)
    requires IsDomain(tail) && d == head + "." + tail && |head| < i < |d| - 1 && d[i] == '.'
    ensures IsAlphanumeric(d[i - 1]) && IsAlphanumeric(d[i + 1])
  {
    hide IsAlphanumeric;
    var j := i - |head| - 1;
    assert tail[j] == '.' && d[i + 1] == tail[j + 1];
    DotIsNone();
    assert j > 0 && d[i - 1] == tail[j - 1];
  }

  lemma DotIsNone()
    ensures !IsAlphanumeric('.')
  {
    AlphanumericIs('.');
  }

  lemma JoinedDomain(d: string, head: string, tail: string)
    requires IsDomain(d) && d == head + "." + tail && '.' !in head
    ensures IsDomain(head) && IsDomain(tail)
  {
    hide IsAlphanumeric;
    var n := |head|;
    DotIsNone();
    assert d[n] == '.' && |d| == n + 1 + |tail|;
    assert 0 < n < |d| - 1;
    assert forall i | 0 <= i < n :: d[i] == head[i] && head[i] in head;
    assert forall i | 0 <= i < |tail| :: tail[i] == d[n + 1 + i];
    assert IsAlphanumeric(d[n - 1]) && IsAlphanumeric(d[n + 1]);
    assert tail[|tail| - 1] == d[|d| - 1];
    forall i | 0 < i < |tail| - 1 && tail[i] == '.'
      ensures IsAlphanumeric(tail[i - 1]) && IsAlphanumeric(tail[i + 1])
    {
      assert d[n + 1 + i] == '.' && tail[i - 1] == d[n + i] && tail[i + 1] == d[n + 2 + i];
    }
  }

  lemma FirstDot(d: string) returns (head: string, tail: string)
    requires '.' in d
    ensures '.' !in head && d == head + "." + tail
    decreases |d|
  {
    if d[0] == '.' {
      head, tail := "", d[1..];
    } else {
      assert '.' in d[1..];
      head, tail := FirstDot(d[1..]);
      head := [d[0]] + head;
    }
  }

  lemma {:induction false} ComponentsAreDomain(d: string)
    ensures (forall c | c in Split(d, '.') :: Accepted(c)) <==> IsDomain(d)
    decreases |d|
  {
    hide Accepted, IsDomain;
    if '.' in d {
      var head, tail := FirstDot(d);
      SplitPrefix(head, tail, '.');
      ComponentIsDomain(head);
      DotsSeparate(head, tail);
      ComponentsAreDomain(tail);
      assert forall c :: c in Split(d, '.') <==> c == head || c in Split(tail, '.');
    } else {
      SplitPrefix(d, "", '.');
      ComponentIsDomain(d);
      assert forall c :: c in Split(d, '.') <==> c == d;
    }
  }

  /** Each character stands for itself, but a hyphen is two underscores. */
  lemma DoubledByCharacter(c: char, rest: string)
    ensures EncodeHyphens("") == ""
      && EncodeHyphens([c] + rest) == (if c == '-' then "__" else [c]) + EncodeHyphens(rest)
  {
    assert ([c] + rest)[1..] == rest;
  }

  lemma {:induction false} DoubledLength(s: string)
    ensures |EncodeHyphens(s)| == |s| + Hyphens(s)
  {
    if s != "" {
      DoubledLength(s[1..]);
    }
  }

  lemma {:induction false} JoinLast(parts: seq<string>, last: string, sep: char)
    requires parts != []
    ensures Join(parts + [last], sep) == Join(parts, sep) + [sep] + last
  {
    if |parts| == 1 {
      assert (parts + [last])[1..] == [last];
    } else {
      JoinLast(parts[1..], last, sep);
      assert (parts + [last])[1..] == parts[1..] + [last];
      assert parts[0] + [sep] + (Join(parts[1..], sep) + [sep] + last)
        == parts[0] + [sep] + Join(parts[1..], sep) + [sep] + last;
    }
  }

  lemma JoinOne(part: string)
    ensures Join([part], '_') == part
  {
  }

  lemma EncodedLast(parts: seq<string>, last: string)
    ensures EncodeAll([last]) == [EncodeHyphens(last)]
    ensures EncodeAll(parts + [last]) == EncodeAll(parts) + [EncodeHyphens(last)]
  {
  }

  /** The part before the first dot comes last in the namespace, behind an underscore. */
  lemma SuffixByDots(head: string, tail: string)
    requires '.' !in head
    ensures Suffix(head) == EncodeHyphens(head)
    ensures Suffix(head + "." + tail) == Suffix(tail) + "_" + Suffix(head)
  {
    hide Split, Join, EncodeHyphens, Reverse, EncodeAll;
    SplitPrefix(head, tail, '.');
    var parts := Split(tail, '.');
    JoinOne(EncodeHyphens(head));
    EncodedLast(Reverse(parts), head);
    assert Reverse([head]) == [head];
    assert Reverse([head] + parts) == Reverse(parts) + [head];
    JoinLast(EncodeAll(Reverse(parts)), EncodeHyphens(head), '_');
  }

  lemma {:induction false} HyphensAdd(s: string, t: string)
    ensures Hyphens(s + t) == Hyphens(s) + Hyphens(t)
  {
    if s == "" {
      assert s + t == t;
    } else {
      HyphensAdd(s[1..], t);
      assert (s + t)[1..] == s[1..] + t;
    }
  }

  lemma {:induction false} SuffixLength(d: string)
    ensures |Suffix(d)| == |d| + Hyphens(d)
    decreases |d|
  {
    hide Suffix;
    if '.' in d {
      var head, tail := FirstDot(d);
      SuffixByDots(head, tail);
      DoubledLength(head);
      SuffixLength(tail);
      HyphensAdd(head, "." + tail);
      HyphensAdd(".", tail);
      assert d == head + ("." + tail);
    } else {
      SuffixByDots(d, "");
      DoubledLength(d);
    }
  }

  /** A domain has a namespace exactly when it is one, and has at most thirty characters with its hyphens counted twice;
      the namespace is its length as a character, an underscore, and the parts of the domain from the last to the
      first. */
  lemma NamespacesExactly(domain: string)
    ensures NamespaceOf(Some(domain)).Ok? <==> IsDomain(domain) && |domain| + Hyphens(domain) <= 30
    ensures NamespaceOf(Some(domain)).Ok? ==>
              NamespaceOf(Some(domain)).value
              == [Base32Char(|domain| + Hyphens(domain) + 1)] + "_" + Suffix(domain)
  {
    hide IsDomain, Suffix, Accepted, Hyphens, CheckComponents;
    AcceptedComponents(Split(domain, '.'));
    ComponentsAreDomain(domain);
    SuffixLength(domain);
  }
}
