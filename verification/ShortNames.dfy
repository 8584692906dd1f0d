/** Aliases of at most eight and three characters for the names in one directory. */
module ShortNames {
  import opened Bytes

  /** How letters are put in upper case, and when two names differ in case only. */
  datatype Letters = Letters(upper: string -> string, same: (string, string) -> bool)

  predicate Plain(c: char) { 'A' <= c <= 'Z' || '0' <= c <= '9' || c == '_' || c == '$' || c == '~' }

  predicate AllPlain(s: string) { forall i :: 0 <= i < |s| ==> Plain(s[i]) }

  function Keep(s: string): (r: string)
    ensures AllPlain(r)
  {
    if s == "" then "" else (if Plain(s[0]) then [s[0]] else []) + Keep(s[1..])
  }

  function Front(s: string, n: nat): string { if |s| > n then s[..n] else s }

  function LastDot(s: string): (i: int)
    ensures -1 <= i < |s|
  {
    if s == "" then -1 else if s[|s| - 1] == '.' then |s| - 1 else LastDot(s[..|s| - 1])
  }

  /** The name and the extension an alias is made of. */
  function Parts(x: Letters, name: string): (r: (string, string))
    ensures AllPlain(r.0) && AllPlain(r.1) && 0 < |r.0| <= 8 && |r.1| <= 3
  {
    var dot := LastDot(name);
    var base, ext := if dot > 0 then name[..dot] else name, if dot > 0 then name[dot + 1..] else "";
    var b, e := Keep(x.upper(base)), Keep(x.upper(ext));
    (Front(if b == "" then "FILE" else b, 8), Front(e, 3))
  }

  function Joined(base: string, ext: string): string { if ext != "" then base + "." + ext else base }

  /** A name that is its own alias. Neither part has a space in it. */
  predicate Simple(x: Letters, name: string) {
    var (base, ext) := Parts(x, name);
    x.same(name, Joined(base, ext))
  }

  // ----- numbered aliases

  function Digits(n: nat): (s: string)
    ensures 0 < |s| && forall i :: 0 <= i < |s| ==> '0' <= s[i] <= '9'
  {
    if n < 10 then ['0' + n as char] else Digits(n / 10) + ['0' + (n % 10) as char]
  }

  function Number(s: string): nat
    requires forall i :: 0 <= i < |s| ==> '0' <= s[i] <= '9'
  {
    if s == "" then 0 else 10 * Number(s[..|s| - 1]) + (s[|s| - 1] - '0') as nat
  }

  lemma {:induction false} NumberOf(n: nat)
    ensures Number(Digits(n)) == n
  {
    if n < 10 {
      assert Digits(n)[..0] == "";
    } else {
      NumberOf(n / 10);
      assert Digits(n)[..|Digits(n)| - 1] == Digits(n / 10);
    }
  }

  /** The number of digits grows at the powers of ten. */
  lemma {:induction false} DigitCount(n: nat)
    ensures |Digits(n)| <= 6 <==> n < 100_0000
  {
    Count(n, 5);
  }

  function Power(k: nat): nat { if k == 0 then 1 else 10 * Power(k - 1) }

  lemma {:induction false} Count(n: nat, k: nat)
    ensures |Digits(n)| <= k + 1 <==> n < 10 * Power(k)
    decreases k
  {
    if n >= 10 && k > 0 {
      Count(n / 10, k - 1);
    } else if n < 10 {
      PowerPositive(k);
    }
  }

  lemma {:induction false} PowerPositive(k: nat)
    ensures 1 <= Power(k)
  {
    if k > 0 { PowerPositive(k - 1); }
  }

  function Numbered(base: string, n: nat): string {
    var suffix := "~" + Digits(n);
    Front(base, if |suffix| < 7 then 8 - |suffix| else 1) + suffix
  }

  function Candidate(base: string, ext: string, n: nat): string { Joined(Numbered(base, n), ext) }

  /** What follows the last tilde. */
  function Tail(s: string): string {
    if s == "" then "" else if s[|s| - 1] == '~' then "" else Tail(s[..|s| - 1]) + [s[|s| - 1]]
  }

  lemma {:induction false} TailOf(p: string, d: string)
    requires forall i :: 0 <= i < |d| ==> d[i] != '~'
    ensures Tail(p + "~" + d) == d
  {
    var s := p + "~" + d;
    if d != "" {
      var n := |d| - 1;
      TailOf(p, d[..n]);
      assert s[..|s| - 1] == p + "~" + d[..n] && s[|s| - 1] == d[n];
      assert d == d[..n] + [d[n]];
    }
  }

  /** Different numbers make different aliases. */
  lemma CandidatesDiffer(base: string, ext: string, m: nat, n: nat)
    requires Candidate(base, ext, m) == Candidate(base, ext, n)
    ensures m == n
  {
    hide Digits, Number, Tail, Joined, Numbered;
    SameBase(Numbered(base, m), Numbered(base, n), ext);
    NumberedTail(base, m);
    NumberedTail(base, n);
    NumberOf(m);
    NumberOf(n);
  }

  lemma NumberedTail(base: string, n: nat)
    ensures Tail(Numbered(base, n)) == Digits(n)
  {
    hide Digits, Number, Tail, Front;
    NumberOf(n);
    var suffix := "~" + Digits(n);
    var p := Front(base, if |suffix| < 7 then 8 - |suffix| else 1);
    assert Numbered(base, n) == p + "~" + Digits(n);
    TailOf(p, Digits(n));
  }

  lemma SameBase(a: string, b: string, ext: string)
    requires Joined(a, ext) == Joined(b, ext)
    ensures a == b
  {
    if ext != "" {
      var s := Joined(a, ext);
      assert |a| == |b|;
      assert a == s[..|a|] && b == s[..|b|];
    }
  }

  // ----- what the aliases are

  /** All smaller numbers are taken by aliases before. */
  ghost predicate Taken(base: string, ext: string, n: nat, before: seq<string>) { forall m :: 1 <= m < n ==> Candidate(base, ext, m) in before }

  ghost predicate Least(base: string, ext: string, n: nat, before: seq<string>) { 1 <= n && Candidate(base, ext, n) !in before
                        && Taken(base, ext, n, before) }

  /** A name that is its own alias keeps it if it is free; any other gets the first number that is free. */
  ghost predicate IsAlias(x: Letters, name: string, before: seq<string>, alias: string) {
    var (base, ext) := Parts(x, name);
    if Simple(x, name) && Joined(base, ext) !in before then alias == Joined(base, ext)
    else exists n :: Least(base, ext, n, before) && alias == Candidate(base, ext, n)
  }

  ghost predicate Assigns(x: Letters, names: seq<string>, aliases: seq<string>) {
    |aliases| == |names| && forall i :: 0 <= i < |names| ==> IsAlias(x, names[i], aliases[..i], aliases[i])
  }

  /** No two names get one alias. */
  lemma AliasesDiffer(x: Letters, names: seq<string>, aliases: seq<string>, i: nat, j: nat)
    requires Assigns(x, names, aliases) && i < j < |aliases|
    ensures aliases[i] != aliases[j]
  {
    assert IsAlias(x, names[j], aliases[..j], aliases[j]);
    assert aliases[..j][i] == aliases[i] && aliases[i] in aliases[..j];
    hide Parts, Candidate, Simple, Joined;
  }

  lemma LeastUnique(base: string, ext: string, m: nat, n: nat, before: seq<string>)
    requires Least(base, ext, m, before) && Least(base, ext, n, before)
    ensures m == n
  {
  }

  /** The aliases are determined by the names. */
  lemma {:induction false} OneAssignment(x: Letters, names: seq<string>, a: seq<string>, b: seq<string>)
    requires Assigns(x, names, a) && Assigns(x, names, b)
    ensures a == b
  {
    hide Parts, Candidate, Simple, Joined, Least;
    if names != [] {
      var n := |names| - 1;
      AssignsFront(x, names, a, n);
      AssignsFront(x, names, b, n);
      OneAssignment(x, names[..n], a[..n], b[..n]);
      assert IsAlias(x, names[n], a[..n], a[n]) && IsAlias(x, names[n], b[..n], b[n]);
      OneAlias(x, names[n], a[..n], a[n], b[n]);
      assert a == a[..n] + [a[n]] && b == b[..n] + [b[n]];
    }
  }

  lemma AssignsFront(x: Letters, names: seq<string>, a: seq<string>, n: nat)
    requires Assigns(x, names, a) && n <= |names|
    ensures Assigns(x, names[..n], a[..n])
  {
    hide IsAlias;
    forall i | 0 <= i < n ensures IsAlias(x, names[..n][i], a[..n][..i], a[..n][i]) { assert a[..n][..i] == a[..i]; }
  }

  lemma OneAlias(x: Letters, name: string, before: seq<string>, a: string, b: string)
    requires IsAlias(x, name, before, a) && IsAlias(x, name, before, b)
    ensures a == b
  {
    hide Parts, Candidate, Joined, Least;
    var (base, ext) := Parts(x, name);
    if !(Simple(x, name) && Joined(base, ext) !in before) {
      var m :| Least(base, ext, m, before) && a == Candidate(base, ext, m);
      var n :| Least(base, ext, n, before) && b == Candidate(base, ext, n);
      LeastUnique(base, ext, m, n, before);
    }
  }

  // ----- eight and three

  /** The numbers taken are no more than the aliases before. */
  lemma TakenFew(base: string, ext: string, n: nat, before: seq<string>)
    requires 1 <= n && Taken(base, ext, n, before)
    ensures n <= |before| + 1
  {
    hide Candidate;
    var s := Elements(before);
    ElementsFew(before);
    TakenSet(base, ext, n, s);
  }

  lemma {:induction false} ElementsFew(s: seq<string>)
    ensures |Elements(s)| <= |s|
  {
    if s != [] {
      var n := |s| - 1;
      ElementsFew(s[..n]);
      assert Elements(s) == Elements(s[..n]) + {s[n]};
    }
  }

  lemma {:induction false} TakenSet(base: string, ext: string, n: nat, used: set<string>)
    requires 1 <= n && forall m :: 1 <= m < n ==> Candidate(base, ext, m) in used
    ensures n - 1 <= |used|
  {
    hide Candidate;
    if n > 1 {
      var c := Candidate(base, ext, n - 1);
      forall m | 1 <= m < n - 1 ensures Candidate(base, ext,
          m) in used - {c} { if Candidate(base, ext, m) == c { CandidatesDiffer(base, ext, m, n - 1); } }
      TakenSet(base, ext, n - 1, used - {c});
    }
  }

  /** An alias is at most eight and three characters long exactly if its number is below a million. */
  lemma NumberedFits(base: string, n: nat)
    requires 0 < |base|
    ensures |Numbered(base, n)| <= 8 <==> n < 100_0000
  {
    DigitCount(n);
  }

  /** In a directory of fewer than a million names all aliases are short. */
  lemma AllFit(x: Letters, names: seq<string>, aliases: seq<string>, i: nat)
    requires Assigns(x, names, aliases) && i < |names| && |names| < 100_0000
    ensures exists base, ext :: |base| <= 8 && |ext| <= 3 && aliases[i] == Joined(base, ext)
  {
    hide Numbered, Joined, Least;
    assert IsAlias(x, names[i], aliases[..i], aliases[i]);
    var (base, ext) := Parts(x, names[i]);
    if !(Simple(x, names[i]) && Joined(base, ext) !in aliases[..i]) {
      var n :| Least(base, ext, n, aliases[..i]) && aliases[i] == Candidate(base, ext, n);
      LeastMeans(base, ext, n, aliases[..i]);
      TakenFew(base, ext, n, aliases[..i]);
      NumberedFits(base, n);
      assert aliases[i] == Joined(Numbered(base, n), ext);
    }
  }

  lemma LeastMeans(base: string, ext: string, n: nat, before: seq<string>)
    requires Least(base, ext, n, before)
    ensures 1 <= n && Taken(base, ext, n, before)
  {
  }

  // ----- the assignment with its memory of numbers

  /** The numbers remembered for a pair of parts are taken up to there. */
  ghost predicate Remembered(next: map<(string, string), nat>, before: seq<string>) {
    forall k :: k in next ==> 1 <= next[k] && Taken(k.0, k.1, next[k], before)
  }

  lemma RememberedMore(next: map<(string, string), nat>, before: seq<string>, alias: string)
    requires Remembered(next, before)
    ensures Remembered(next, before + [alias])
  {
    hide Candidate;
  }

  /** Finds the first free number, when all below the start are taken. */
  method FirstFree(base: string, ext: string, start: nat, used: set<string>, ghost before: seq<string>) returns (n: nat)
    requires 1 <= start && Taken(base, ext, start, before) && used == Elements(before)
    ensures Least(base, ext, n, before)
  {
    hide Candidate;
    n := start;
    while Candidate(base, ext, n) in used
      invariant start <= n && Taken(base, ext, n, before)
      decreases |before| + 1 - n
    {
      TakenFew(base, ext, n + 1, before);
      n := n + 1;
    }
  }

  /** Gives one name its alias, after those that have one. */
  method AssignOne(x: Letters, name: string, used: set<string>, given: map<(string, string), nat>, ghost before: seq<string>)
    returns (alias: string, next: map<(string, string), nat>)
    requires used == Elements(before) && Remembered(given, before)
    ensures IsAlias(x, name, before, alias) && Remembered(next, before + [alias])
  {
    hide Parts, Candidate, Simple, Joined, Taken, IsAlias;
    var (base, ext) := Parts(x, name);
    alias, next := Joined(base, ext), given;
    if Simple(x, name) && alias !in used {
      PlainAlias(x, name, before);
      RememberedMore(next, before, alias);
    } else {
      var key := (base, ext);
      var start := if key in next then next[key] else 1;
      assert Taken(base, ext, 1, before) by { NoneTaken(base, ext, before); }
      var n := FirstFree(base, ext, start, used, before);
      alias := Candidate(base, ext, n);
      NumberAlias(x, name, before, n);
      RememberedMore(next, before, alias);
      NowTaken(base, ext, n, before);
      next := next[key := n + 1];
    }
  }

  /** Gives every name its alias. */
  method AssignShortNames(x: Letters, names: seq<string>) returns (aliases: seq<string>)
    ensures Assigns(x, names, aliases)
  {
    hide IsAlias, Remembered;
    aliases := [];
    var used: set<string>, next: map<(string, string), nat> := {}, map[];
    NoneRemembered();
    for i := 0 to |names|
      invariant |aliases| == i && used == Elements(aliases) && Remembered(next, aliases)
      invariant forall j :: 0 <= j < i ==> IsAlias(x, names[j], aliases[..j], aliases[j])
    {
      var alias;
      alias, next := AssignOne(x, names[i], used, next, aliases);
      AliasesMore(x, names, aliases, alias);
      used, aliases := used + {alias}, aliases + [alias];
    }
  }

  lemma NoneRemembered()
    ensures Remembered(map[], [])
  {
  }

  lemma NoneTaken(base: string, ext: string, before: seq<string>)
    ensures Taken(base, ext, 1, before)
  {
  }

  lemma NowTaken(base: string, ext: string, n: nat, before: seq<string>)
    requires Least(base, ext, n, before)
    ensures Taken(base, ext, n + 1, before + [Candidate(base, ext, n)])
  {
    hide Candidate;
  }

  lemma PlainAlias(x: Letters, name: string, before: seq<string>)
    requires var (base, ext) := Parts(x, name); Simple(x, name) && Joined(base, ext) !in before
    ensures var (base, ext) := Parts(x, name); IsAlias(x, name, before, Joined(base, ext))
  {
    hide Parts, Candidate, Simple, Joined;
  }

  lemma NumberAlias(x: Letters, name: string, before: seq<string>, n: nat)
    requires var (base, ext) := Parts(x, name); !(Simple(x, name) && Joined(base, ext) !in before) && Least(base, ext, n, before)
    ensures var (base, ext) := Parts(x, name); IsAlias(x, name, before, Candidate(base, ext, n))
  {
    hide Parts, Candidate, Simple, Joined, Least;
  }

  lemma AliasesMore(x: Letters, names: seq<string>, aliases: seq<string>, alias: string)
    requires |aliases| < |names| && (forall j :: 0 <= j < |aliases| ==> IsAlias(x, names[j], aliases[..j], aliases[j]))
             && IsAlias(x, names[|aliases|], aliases, alias)
    ensures var more := aliases + [alias];
              Elements(more) == Elements(aliases) + {alias} && forall j :: 0 <= j < |more| ==> IsAlias(x, names[j], more[..j], more[j])
  {
    hide IsAlias;
    var more := aliases + [alias];
    forall j | 0 <= j < |more| ensures IsAlias(x, names[j], more[..j],
        more[j]) { assert more[..j] == aliases[..j]; if j == |aliases| { assert aliases[..j] == aliases; } }
  }
}
