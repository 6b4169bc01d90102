/** The redirect rules of a release: which qualifiers name which file, and what a query resolves to. */
module CatalogRules {
  import opened Wrappers
  import opened Sorting
  import opened Text
  import opened Packets

  /** A qualifier with its value, the value as the octets of its text. */
  datatype Pair = Pair(key: string, value: Bytes)

  datatype File = File(classifiers: set<Pair>, url: string)

  // ----- minimal combos -----

  /** No other file has all of these classifiers. */
  predicate Names(combo: set<Pair>, others: seq<set<Pair>>) {
    forall o | o in others :: !(combo <= o)
  }

  /** The ways to pick some items in their order, in the order of their positions. */
  function Combinations<T>(items: seq<T>, size: nat): seq<seq<T>> {
    if size == 0 then [[]]
    else if items == [] then []
    else Prefixed(items[0], Combinations(items[1..], size - 1)) + Combinations(items[1..], size)
  }

  function Prefixed<T>(x: T, picks: seq<seq<T>>): (r: seq<seq<T>>)
    ensures |r| == |picks| && forall i | 0 <= i < |r| :: r[i] == [x] + picks[i]
  {
    if picks == [] then [] else [[x] + picks[0]] + Prefixed(x, picks[1..])
  }

  lemma PrefixedHas<T>(x: T, picks: seq<seq<T>>, c: seq<T>)
    ensures c in Prefixed(x, picks) <==> c != [] && c[0] == x && c[1..] in picks
  {
    if c in Prefixed(x, picks) {
      var i :| 0 <= i < |picks| && Prefixed(x, picks)[i] == c;
      assert c == [x] + picks[i];
      assert c[1..] == picks[i];
    }
    if c != [] && c[0] == x && c[1..] in picks {
      var i :| 0 <= i < |picks| && picks[i] == c[1..];
      assert Prefixed(x, picks)[i] == [x] + c[1..] == c;
    }
  }

  /** c takes some of the items, in their order. */
  predicate Picks<T(==)>(items: seq<T>, size: nat, c: seq<T>) {
    if size == 0 then c == []
    else items != [] && (Picks(items[1..], size, c)
                         || (c != [] && c[0] == items[0] && Picks(items[1..], size - 1, c[1..])))
  }

  lemma {:induction false} CombinationsArePicks<T>(items: seq<T>, size: nat, c: seq<T>)
    ensures c in Combinations(items, size) <==> Picks(items, size, c)
  {
    if size > 0 && items != [] {
      PickCases(items, size, c);
      CombinationsArePicks(items[1..], size, c);
      if c != [] {
        CombinationsArePicks(items[1..], size - 1, c[1..]);
      }
    }
  }

  /** A combination takes the first item or does not. */
  lemma PickCases<T>(items: seq<T>, size: nat, c: seq<T>)
    requires size > 0 && items != []
    ensures c in Combinations(items, size) <==>
      (c != [] && c[0] == items[0] && c[1..] in Combinations(items[1..], size - 1))
        || c in Combinations(items[1..], size)
  {
    var first, later := Combinations(items[1..], size - 1), Combinations(items[1..], size);
    PrefixedHas(items[0], first, c);
    InEither(Prefixed(items[0], first), later, c);
  }

  lemma InEither<T>(a: seq<T>, b: seq<T>, x: T)
    ensures x in a + b <==> x in a || x in b
  {
  }

  lemma FirstApart<T>(items: seq<T>)
    requires items != []
    ensures Elements(items) == {items[0]} + Elements(items[1..])
    ensures NoDuplicates(items) ==> NoDuplicates(items[1..]) && items[0] !in Elements(items[1..])
  {
    assert items == [items[0]] + items[1..];
  }

  lemma {:induction false} PickedSubset<T>(items: seq<T>, size: nat, c: seq<T>)
    requires NoDuplicates(items) && Picks(items, size, c)
    ensures Elements(c) <= Elements(items) && |Elements(c)| == size
  {
    if size > 0 {
      FirstApart(items);
      if Picks(items[1..], size, c) {
        PickedSubset(items[1..], size, c);
      } else {
        FirstApart(c);
        PickedSubset(items[1..], size - 1, c[1..]);
      }
    }
  }

  lemma TakeFirst<T>(items: seq<T>, size: nat, d: seq<T>)
    requires items != [] && Picks(items[1..], size, d)
    ensures Picks(items, size + 1, [items[0]] + d)
    ensures Elements([items[0]] + d) == {items[0]} + Elements(d)
  {
    assert ([items[0]] + d)[1..] == d;
    FirstApart([items[0]] + d);
  }

  /** Every subset of the items is picked. */
  lemma {:induction false} EverySubsetPicked<T>(items: seq<T>, sub: set<T>) returns (c: seq<T>)
    requires NoDuplicates(items) && sub <= Elements(items)
    ensures Picks(items, |sub|, c) && Elements(c) == sub
  {
    hide NoDuplicates;
    if sub == {} {
      c := [];
    } else {
      var x :| x in sub;
      assert x in Elements(items);
      FirstApart(items);
      if items[0] in sub {
        var d := EverySubsetPicked(items[1..], sub - {items[0]});
        TakeFirst(items, |sub| - 1, d);
        c := [items[0]] + d;
      } else {
        c := EverySubsetPicked(items[1..], sub);
      }
    }
  }

  lemma {:induction false} DistinctSize<T>(c: seq<T>)
    requires NoDuplicates(c)
    ensures |Elements(c)| == |c|
  {
    if c != [] {
      FirstApart(c);
      DistinctSize(c[1..]);
    }
  }

  /** Searches the picks of one size. */
  method FirstOfSize(items: seq<Pair>, size: nat, others: seq<set<Pair>>) returns (combo: Option<set<Pair>>)
    requires NoDuplicates(items)
    ensures combo.Some? ==> |combo.value| == size && combo.value <= Elements(items) && Names(combo.value, others)
    ensures combo.None? ==> forall s | s <= Elements(items) && |s| == size :: !Names(s, others)
  {
    var picks := Combinations(items, size);
    for i := 0 to |picks|
      invariant forall k | 0 <= k < i :: !Names(Elements(picks[k]), others)
    {
      if Names(Elements(picks[i]), others) {
        CombinationsArePicks(items, size, picks[i]);
        PickedSubset(items, size, picks[i]);
        return Some(Elements(picks[i]));
      }
    }
    forall s | s <= Elements(items) && |s| == size
      ensures !Names(s, others)
    {
      var c := EverySubsetPicked(items, s);
      CombinationsArePicks(items, size, c);
    }
    return None;
  }

  /** Searches the picks of growing size for one that no other file has. It is of least size, and there is none
      exactly when there are no classifiers or another file has them all. */
  method MinimalCombo(items: seq<Pair>, others: seq<set<Pair>>) returns (combo: Option<set<Pair>>)
    requires NoDuplicates(items)
    ensures combo.Some? ==> combo.value != {} && combo.value <= Elements(items) && Names(combo.value, others)
    ensures combo.Some? ==> forall s | s <= Elements(items) && s != {} && |s| < |combo.value| :: !Names(s, others)
    ensures combo.None? <==> items == [] || !Names(Elements(items), others)
  {
    for size := 1 to |items| + 1
      invariant forall s | s <= Elements(items) && s != {} && |s| < size :: !Names(s, others)
    {
      combo := FirstOfSize(items, size, others);
      if combo.Some? {
        NamesGrow(combo.value, Elements(items), others);
        return;
      }
    }
    DistinctSize(items);
    return None;
  }

  lemma NamesGrow(a: set<Pair>, b: set<Pair>, others: seq<set<Pair>>)
    requires a <= b && Names(a, others)
    ensures Names(b, others)
  {
  }

  // ----- the rules of a release -----

  function Others(files: seq<File>, i: nat): (others: seq<set<Pair>>)
    requires i < |files|
    ensures forall j | 0 <= j < |files| && j != i :: files[j].classifiers in others
    ensures forall o | o in others :: exists j | 0 <= j < |files| && j != i :: files[j].classifiers == o
  {
    ClassifiersOf(files[..i]) + ClassifiersOf(files[i + 1..])
  }

  function ClassifiersOf(files: seq<File>): (sets: seq<set<Pair>>)
    ensures |sets| == |files| && forall j | 0 <= j < |files| :: sets[j] == files[j].classifiers
  {
    seq(|files|, j requires 0 <= j < |files| => files[j].classifiers)
  }

  datatype Rule = Rule(combo: set<Pair>, url: string)

  /** The rule redirects to a file and asks for classifiers that only this file has. */
  ghost predicate Addresses(rule: Rule, files: seq<File>, i: nat)
    requires i < |files|
  {
    rule.url == files[i].url && rule.combo <= files[i].classifiers && Names(rule.combo, Others(files, i))
  }

  /** The rule of a file: some of its classifiers, as few as will do, that no other file has. */
  ghost predicate IsRuleOf(rule: Rule, files: seq<File>, i: nat)
    requires i < |files|
  {
    && Addresses(rule, files, i) && rule.combo != {}
    && forall s | s <= files[i].classifiers && s != {} && |s| < |rule.combo| :: !Names(s, Others(files, i))
  }

  function LargerFirst(): (Rule, Rule) -> bool {
    (a: Rule, b: Rule) => |a.combo| >= |b.combo|
  }

  /** The rules of the files whose classifiers tell them apart from every other file, larger combos first. The items
      of each file's classifiers are listed in some order. */
  method ClassifierRules(files: seq<File>, items: seq<seq<Pair>>) returns (rules: seq<Rule>)
    requires |items| == |files| && forall i | 0 <= i < |files| :: Enumerates(items[i], files[i].classifiers)
    ensures forall rule | rule in rules :: exists i | 0 <= i < |files| :: IsRuleOf(rule, files, i)
    ensures forall i | 0 <= i < |files| && files[i].classifiers != {} && Names(files[i].classifiers, Others(files, i))
              :: exists rule | rule in rules :: IsRuleOf(rule, files, i)
    ensures Sorted(rules, LargerFirst())
  {
    var found := [];
    for i := 0 to |files|
      invariant forall rule | rule in found :: exists k | 0 <= k < |files| :: IsRuleOf(rule, files, k)
      invariant forall k | 0 <= k < i && files[k].classifiers != {} && Names(files[k].classifiers, Others(files, k)) ::
                  exists rule | rule in found :: IsRuleOf(rule, files, k)
    {
      var combo := MinimalCombo(items[i], Others(files, i));
      assert Elements(items[i]) == files[i].classifiers;
      if combo.Some? {
        var rule := Rule(combo.value, files[i].url);
        assert IsRuleOf(rule, files, i);
        found := found + [rule];
        assert rule in found;
      }
    }
    rules := Sort(found, LargerFirst());
    SortKeeps(found, LargerFirst());
    SameElements(found, rules);
    SortSorted(found, LargerFirst());
  }

  predicate RuleMatches(rule: Rule, query: set<Pair>) {
    rule.combo <= query
  }

  /** A query that says no less than a file's combo and no more than its classifiers matches no other file's rule. */
  lemma OnlyItsOwnRule(files: seq<File>, i: nat, query: set<Pair>, rule: Rule, k: nat)
    requires i < |files| && k < |files| && Addresses(rule, files, k)
    requires query <= files[i].classifiers && RuleMatches(rule, query)
    ensures k == i && rule.url == files[i].url
  {
    forall j | 0 <= j < |files| && j != k
      ensures !(rule.combo <= files[j].classifiers)
    {
      assert files[j].classifiers in Others(files, k);
    }
    assert rule.combo <= files[i].classifiers;
  }

  // ----- queries as text -----

  function HexDigit(n: nat): char
    requires n < 16
  {
    if n < 10 then '0' + n as char else 'A' + (n - 10) as char
  }

  predicate Unreserved(o: Octet) {
    65 <= o <= 90 || 97 <= o <= 122 || 48 <= o <= 57 || o in {45, 46, 95, 126}
  }

  /** Percent-encoding with nothing but the unreserved characters left as they are (section 2.3 of RFC 3986). */
  function Quote(value: Bytes): (s: string)
    ensures forall c | c in s :: c != '&' && c != '='
  {
    if value == [] then ""
    else
      var quoted := ['%', HexDigit(value[0] / 16), HexDigit(value[0] % 16)];
      (if Unreserved(value[0]) then [value[0] as char] else quoted) + Quote(value[1..])
  }

  lemma {:induction false} QuoteInjective(a: Bytes, b: Bytes)
    requires Quote(a) == Quote(b)
    ensures a == b
  {
    if a == [] {
      assert b == [];
    } else {
      var s, t := Quote(a), Quote(b);
      assert b != [];
      assert s[0] == t[0];
      if Unreserved(a[0]) {
        assert s[1..] == Quote(a[1..]) && t[1..] == Quote(b[1..]);
      } else {
        assert s[1] == t[1] && s[2] == t[2];
        assert s[3..] == Quote(a[1..]) && t[3..] == Quote(b[1..]);
      }
      QuoteInjective(a[1..], b[1..]);
      assert a == [a[0]] + a[1..] && b == [b[0]] + b[1..];
    }
  }

  const LETTERS := "ABCDEFGHIJKLMNOPQRSTUVWXYZ" + "abcdefghijklmnopqrstuvwxyz"

  /** The characters of section 2.3 of RFC 3986 stand for themselves, and every other octet is a percent sign and two
      upper-case hexadecimal digits. */
  function Spelling(o: Octet): string {
    var digits := "0123456789ABCDEF";
    if o as char in LETTERS || o as char in "0123456789" || o as char in "-._~" then [o as char]
    else ['%', digits[o / 16], digits[o % 16]]
  }

  /** A value is spelled octet by octet. */
  lemma QuoteByOctet(o: Octet, rest: Bytes)
    ensures Quote([]) == "" && Quote([o] + rest) == Spelling(o) + Quote(rest)
  {
    assert ([o] + rest)[1..] == rest;
    InLetters(o as char);
    InDigits(o as char);
    HexDigitAt(o / 16);
    HexDigitAt(o % 16);
  }

  lemma InLetters(c: char)
    ensures c in LETTERS <==> 'A' <= c <= 'Z' || 'a' <= c <= 'z'
  {
    InUpper(c);
    InLower(c);
  }

  lemma InUpper(c: char)
    ensures c in "ABCDEFGHIJKLMNOPQRSTUVWXYZ" <==> 'A' <= c <= 'Z'
  {
  }

  lemma InLower(c: char)
    ensures c in "abcdefghijklmnopqrstuvwxyz" <==> 'a' <= c <= 'z'
  {
  }

  lemma InDigits(c: char)
    ensures c in "0123456789" <==> '0' <= c <= '9'
    ensures c in "-._~" <==> c == '-' || c == '.' || c == '_' || c == '~'
  {
  }

  lemma HexDigitAt(n: nat)
    requires n < 16
    ensures HexDigit(n) == "0123456789ABCDEF"[n]
  {
  }

  function PairText(p: Pair): string {
    p.key + "=" + Quote(p.value)
  }

  predicate PlainKey(key: string) {
    '=' !in key && '&' !in key
  }

  lemma PairParts(p: Pair)
    requires PlainKey(p.key)
    ensures Split(PairText(p), '=') == [p.key, Quote(p.value)]
  {
    SplitPrefix(p.key, Quote(p.value), '=');
    SplitPrefix(Quote(p.value), "", '=');
  }

  lemma PairTextInjective(p: Pair, q: Pair)
    requires PlainKey(p.key) && PlainKey(q.key) && PairText(p) == PairText(q)
    ensures p == q
  {
    PairParts(p);
    PairParts(q);
    var parts := Split(PairText(p), '=');
    assert parts[0] == p.key == q.key && parts[1] == Quote(p.value) == Quote(q.value);
    QuoteInjective(p.value, q.value);
  }

  predicate OccursAt(query: string, x: string, i: nat) {
    && i + |x| <= |query| && (forall j | 0 <= j < |x| :: query[i + j] == x[j])
    && (i == 0 || query[i - 1] == '&')
    && (i + |x| == |query| || query[i + |x|] == '&')
  }

  /** The condition of a rule: the text stands in the query between ampersands or the ends. */
  predicate Occurs(query: string, x: string) {
    exists i: nat | i <= |query| :: OccursAt(query, x, i)
  }

  lemma FirstAmpersand(query: string) returns (k: nat)
    requires '&' in query
    ensures k < |query| && query[k] == '&' && '&' !in query[..k]
  {
    k := 0;
    while query[k] != '&'
      invariant k < |query| && '&' in query[k..]
      invariant '&' !in query[..k]
      decreases |query| - k
    {
      assert query[k..] == [query[k]] + query[k + 1..];
      assert query[..k + 1] == query[..k] + [query[k]];
      k := k + 1;
    }
  }

  /** A text without ampersands occurs in a query exactly when it is one of the parts of the query. */
  lemma {:induction false} OccursIsPart(query: string, x: string)
    requires '&' !in x
    ensures Occurs(query, x) <==> x in Split(query, '&')
    decreases |query|
  {
    if '&' !in query {
      SplitPrefix(query, "", '&');
      if Occurs(query, x) {
        var i: nat :| i <= |query| && OccursAt(query, x, i);
        assert i == 0 && |x| == |query|;
        assert x == query;
      }
      if x == query {
        assert OccursAt(query, x, 0);
      }
    } else {
      var k := FirstAmpersand(query);
      var head, tail := query[..k], query[k + 1..];
      assert query == head + "&" + tail;
      SplitPrefix(head, tail, '&');
      OccursIsPart(tail, x);
      OccursInHeadOrTail(query, x, k);
    }
  }

  lemma OccursInHead(query: string, x: string, k: nat)
    requires '&' !in x && k < |query| && query[k] == '&' && '&' !in query[..k]
    ensures OccursAt(query, x, 0) <==> x == query[..k]
  {
    var head := query[..k];
    assert forall j | 0 <= j < k :: query[j] == head[j] && head[j] != '&';
    assert forall j | 0 <= j < |x| :: x[j] != '&';
    if OccursAt(query, x, 0) {
      assert forall j | 0 <= j < |x| :: query[j] == x[j];
      assert x == head;
    }
  }

  lemma OccursInTail(query: string, x: string, k: nat, i: nat)
    requires k < |query| && query[k] == '&' && '&' !in query[..k] && i > 0
    ensures OccursAt(query, x, i) <==> i > k && OccursAt(query[k + 1..], x, i - k - 1)
  {
    var head, tail := query[..k], query[k + 1..];
    assert forall j | 0 <= j < k :: query[j] == head[j] && head[j] != '&';
    if i > k {
      assert forall m | k < m < |query| :: query[m] == tail[m - k - 1];
    }
  }

  lemma OccursInHeadOrTail(query: string, x: string, k: nat)
    requires '&' !in x && k < |query| && query[k] == '&' && '&' !in query[..k]
    ensures Occurs(query, x) <==> x == query[..k] || Occurs(query[k + 1..], x)
  {
    OccursInHead(query, x, k);
    var tail := query[k + 1..];
    if Occurs(query, x) && x != query[..k] {
      var i: nat :| i <= |query| && OccursAt(query, x, i);
      OccursInTail(query, x, k, i);
      assert OccursAt(tail, x, i - k - 1);
    }
    if Occurs(tail, x) {
      var i: nat :| i <= |tail| && OccursAt(tail, x, i);
      OccursInTail(query, x, k, i + k + 1);
    }
  }

  // ----- the first rule that matches -----

  predicate Matches(rule: Rule, query: string) {
    forall p | p in rule.combo :: Occurs(query, PairText(p))
  }

  /** The server takes the first rule all of whose conditions hold. */
  function FirstMatch(rules: seq<Rule>, query: string): Option<string> {
    if rules == [] then None
    else if Matches(rules[0], query) then Some(rules[0].url)
    else FirstMatch(rules[1..], query)
  }

  lemma {:induction false} AllMatchesAgree(rules: seq<Rule>, query: string, url: string)
    requires forall rule | rule in rules && Matches(rule, query) :: rule.url == url
    requires exists rule | rule in rules :: Matches(rule, query)
    ensures FirstMatch(rules, query) == Some(url)
  {
    if !Matches(rules[0], query) {
      assert forall rule | rule in rules :: rule == rules[0] || rule in rules[1..];
      AllMatchesAgree(rules[1..], query, url);
    }
  }

  /** With larger combos first, no rule that matches a query asks for more than the one that is taken. */
  lemma {:induction false} MostSpecificRuleWins(rules: seq<Rule>, query: string) returns (i: nat)
    requires Sorted(rules, LargerFirst()) && exists rule | rule in rules :: Matches(rule, query)
    ensures i < |rules| && Matches(rules[i], query) && FirstMatch(rules, query) == Some(rules[i].url)
    ensures forall rule | rule in rules && Matches(rule, query) :: |rule.combo| <= |rules[i].combo|
  {
    if Matches(rules[0], query) {
      i := 0;
      FirstIsLargest(rules);
    } else {
      SortedTail(rules, LargerFirst());
      assert forall rule | rule in rules :: rule == rules[0] || rule in rules[1..];
      var k := MostSpecificRuleWins(rules[1..], query);
      i := k + 1;
    }
  }

  lemma FirstIsLargest(rules: seq<Rule>)
    requires Sorted(rules, LargerFirst()) && rules != []
    ensures forall rule | rule in rules :: |rule.combo| <= |rules[0].combo|
  {
    forall k | 0 < k < |rules|
      ensures |rules[k].combo| <= |rules[0].combo|
    {
      assert LargerFirst()(rules[0], rules[k]);
    }
  }

  /** The query says these pairs, in any order, and nothing else. */
  ghost predicate Says(query: string, pairs: set<Pair>) {
    && (forall p | p in pairs :: PairText(p) in Split(query, '&'))
    && (forall part | part in Split(query, '&') :: exists p | p in pairs :: part == PairText(p))
  }

  predicate ByName(rule: Rule) {
    exists p | p in rule.combo :: p.key in {"file_name", "subpath"}
  }

  predicate ClassifierKeys(pairs: set<Pair>) {
    forall p | p in pairs :: p.key in {"class", "os", "arch", "ext"}
  }

  lemma MatchesWhatIsSaid(rule: Rule, query: string, pairs: set<Pair>)
    requires Says(query, pairs)
    requires forall p | p in pairs + rule.combo :: PlainKey(p.key)
    ensures Matches(rule, query) <==> rule.combo <= pairs
  {
    forall p | p in rule.combo
      ensures Occurs(query, PairText(p)) <==> p in pairs
    {
      OccursIsPart(query, PairText(p));
      if PairText(p) in Split(query, '&') {
        var q :| q in pairs && PairText(p) == PairText(q);
        PairTextInjective(p, q);
      }
    }
  }

  lemma ClassifierKeysArePlain(pairs: set<Pair>)
    requires ClassifierKeys(pairs)
    ensures forall p | p in pairs :: PlainKey(p.key)
  {
  }

  lemma MatchingRuleIsOwn(files: seq<File>, i: nat, rule: Rule, k: nat, query: string, pairs: set<Pair>)
    requires i < |files| && k < |files| && Addresses(rule, files, k)
    requires ClassifierKeys(files[k].classifiers) && ClassifierKeys(pairs)
    requires Says(query, pairs) && pairs <= files[i].classifiers && Matches(rule, query)
    ensures rule.url == files[i].url
  {
    ClassifierKeysArePlain(files[k].classifiers);
    ClassifierKeysArePlain(pairs);
    MatchesWhatIsSaid(rule, query, pairs);
    OnlyItsOwnRule(files, i, pairs, rule, k);
  }

  lemma OwnRuleMatches(rule: Rule, query: string, pairs: set<Pair>)
    requires ClassifierKeys(pairs) && Says(query, pairs) && rule.combo <= pairs
    ensures Matches(rule, query)
  {
    ClassifierKeysArePlain(pairs);
    MatchesWhatIsSaid(rule, query, pairs);
  }

  ghost predicate AddressesSome(rule: Rule, files: seq<File>) {
    exists k | 0 <= k < |files| :: Addresses(rule, files, k)
  }

  /** A query that says at least a file's combo and at most its classifiers redirects to the file: the first rule of
      the release that matches has its URL, whatever rules by name come first. */
  lemma QueryFindsFile(files: seq<File>, i: nat, own: Rule, named: seq<Rule>, rules: seq<Rule>, query: string,
                       pairs: set<Pair>)
    requires i < |files| && Addresses(own, files, i) && own in rules
    requires forall rule | rule in rules :: AddressesSome(rule, files)
    requires forall k | 0 <= k < |files| :: ClassifierKeys(files[k].classifiers)
    requires forall rule | rule in named :: ByName(rule) && forall p | p in rule.combo :: PlainKey(p.key)
    requires Says(query, pairs) && own.combo <= pairs <= files[i].classifiers
    ensures FirstMatch(named + rules, query) == Some(files[i].url)
  {
    assert ClassifierKeys(pairs) by {
      assert ClassifierKeys(files[i].classifiers);
    }
    forall rule | rule in rules && Matches(rule, query)
      ensures rule.url == files[i].url
    {
      assert AddressesSome(rule, files);
      var k :| 0 <= k < |files| && Addresses(rule, files, k);
      MatchingRuleIsOwn(files, i, rule, k, query, pairs);
    }
    forall rule | rule in named
      ensures !Matches(rule, query)
    {
      NamedRuleSilent(rule, query, pairs);
    }
    OwnRuleMatches(own, query, pairs);
    FirstOfBoth(named, rules, query, own);
  }

  lemma FirstOfBoth(named: seq<Rule>, rules: seq<Rule>, query: string, own: Rule)
    requires forall rule | rule in named :: !Matches(rule, query)
    requires forall rule | rule in rules && Matches(rule, query) :: rule.url == own.url
    requires own in rules && Matches(own, query)
    ensures FirstMatch(named + rules, query) == Some(own.url)
  {
    assert own in named + rules;
    AllMatchesAgree(named + rules, query, own.url);
  }

  lemma NamedRuleSilent(rule: Rule, query: string, pairs: set<Pair>)
    requires ByName(rule) && Says(query, pairs) && ClassifierKeys(pairs)
    requires forall p | p in rule.combo :: PlainKey(p.key)
    ensures !Matches(rule, query)
  {
    MatchesWhatIsSaid(rule, query, pairs);
  }

  // ----- values that name one file only -----

  function CountKey(pairs: seq<(string, string)>, key: string): nat {
    if pairs == [] then 0 else (if pairs[0].0 == key then 1 else 0) + CountKey(pairs[1..], key)
  }

  predicate Kept(pairs: seq<(string, string)>, p: (string, string)) {
    p.0 != "" && CountKey(pairs, p.0) == 1
  }

  /** Keeps the pairs whose key is not empty and stands only once in the list. */
  method Unique(pairs: seq<(string, string)>) returns (kept: seq<(string, string)>)
    ensures forall i | 0 <= i < |pairs| ::
              (pairs[i].0 != "" && forall j | 0 <= j < |pairs| && j != i :: pairs[j].0 != pairs[i].0)
                <==> pairs[i] in kept
    ensures forall p | p in kept :: p in pairs
    ensures NoDuplicates(kept)
  {
    kept := [];
    for i := 0 to |pairs|
      invariant forall p | p in kept :: p in pairs[..i] && Kept(pairs, p)
      invariant forall m | 0 <= m < i && Kept(pairs, pairs[m]) :: pairs[m] in kept
      invariant NoDuplicates(kept)
    {
      if Kept(pairs, pairs[i]) {
        assert pairs[i] !in pairs[..i] by {
          if m: nat :| m < i && pairs[m] == pairs[i] {
            CountedTwice(pairs, i, m);
            assert false;
          }
        }
        kept := kept + [pairs[i]];
      }
    }
    forall i | 0 <= i < |pairs|
      ensures Kept(pairs, pairs[i])
        <==> pairs[i].0 != "" && forall j | 0 <= j < |pairs| && j != i :: pairs[j].0 != pairs[i].0
    {
      KeptIsUnique(pairs, i);
    }
  }

  lemma KeptIsUnique(pairs: seq<(string, string)>, i: nat)
    requires i < |pairs|
    ensures Kept(pairs, pairs[i])
      <==> pairs[i].0 != "" && forall j | 0 <= j < |pairs| && j != i :: pairs[j].0 != pairs[i].0
  {
    CountedOnce(pairs, i);
    forall j | 0 <= j < |pairs| && j != i
      ensures pairs[i].0 == pairs[j].0 ==> CountKey(pairs, pairs[i].0) >= 2
    {
      CountedTwice(pairs, i, j);
    }
  }

  lemma {:induction false} CountPositive(pairs: seq<(string, string)>, i: nat)
    requires i < |pairs|
    ensures CountKey(pairs, pairs[i].0) >= 1
  {
    if i > 0 {
      CountPositive(pairs[1..], i - 1);
    }
  }

  lemma {:induction false} CountedTwice(pairs: seq<(string, string)>, i: nat, j: nat)
    requires i < |pairs| && j < |pairs| && i != j
    ensures pairs[i].0 == pairs[j].0 ==> CountKey(pairs, pairs[i].0) >= 2
  {
    if pairs[i].0 == pairs[j].0 {
      if i == 0 {
        CountPositive(pairs[1..], j - 1);
      } else if j == 0 {
        CountPositive(pairs[1..], i - 1);
      } else {
        CountedTwice(pairs[1..], i - 1, j - 1);
      }
    }
  }

  lemma {:induction false} CountNone(pairs: seq<(string, string)>, key: string)
    requires forall j | 0 <= j < |pairs| :: pairs[j].0 != key
    ensures CountKey(pairs, key) == 0
  {
    if pairs != [] {
      CountNone(pairs[1..], key);
    }
  }

  lemma {:induction false} CountedOnce(pairs: seq<(string, string)>, i: nat)
    requires i < |pairs|
    ensures (forall j | 0 <= j < |pairs| && j != i :: pairs[j].0 != pairs[i].0) ==> CountKey(pairs, pairs[i].0) == 1
  {
    if forall j | 0 <= j < |pairs| && j != i :: pairs[j].0 != pairs[i].0 {
      if i == 0 {
        CountNone(pairs[1..], pairs[0].0);
      } else {
        assert pairs[0].0 != pairs[i].0;
        CountedOnce(pairs[1..], i - 1);
      }
    }
  }
}
