/** A backtracking matcher for the regular-expression forms the three colour
    patterns use. Match lists every way a pattern can match at a position, in
    the order a backtracking engine tries them (left alternative first, greedy
    quantifiers longest first, the parts of a concatenation left to right);
    Exec of an anchored pattern ^re$ is the first of them that ends at the end
    of the input, as RegExp.prototype.exec returns it. */
module Regex {
  import opened Results
  import opened Text

  /** The set of characters allowed at one position. */
  datatype CharClass =
    | Digit                 // \d
    | Space                 // \s
    | LowerHex              // [0-9a-f]
    | OneOf(chars: string)  // a bracketed list such as [-|+]

  predicate InClass(c: char, k: CharClass) {
    match k
    case Digit => IsDigit(c)
    case Space => IsSpace(c)
    case LowerHex => IsLowerHex(c)
    case OneOf(cs) => c in cs
  }

  datatype Re =
    | Lit(text: string)            // the characters of text, in order
    | Class(cls: CharClass)        // one character of cls
    | Star(cls: CharClass)         // cls*, greedy
    | Plus(cls: CharClass)         // cls+, greedy
    | Cat(first: Re, rest: Re)     // first, then rest
    | Alt(left: Re, right: Re)     // left|right
    | Opt(body: Re)                // body?, greedy
    | Group(index: nat, body: Re)  // a capturing group (body) numbered index

  /** The capture groups that have participated, by number; an absent number
      is an undefined capture. */
  type Captures = map<nat, string>

  /** One way of matching: where it ended and what it captured. */
  datatype Thread = Thread(end: nat, caps: Captures)

  /** The end of the longest run of characters of cls starting at i. */
  function Run(s: string, i: nat, cls: CharClass): (j: nat)
    requires i <= |s|
    ensures i <= j <= |s|
    ensures forall k :: i <= k < j ==> InClass(s[k], cls)
    ensures j == |s| || !InClass(s[j], cls)
    decreases |s| - i
  {
    if i < |s| && InClass(s[i], cls) then Run(s, i + 1, cls) else i
  }

  /** The threads ending at hi, hi - 1, ..., lo: a greedy repetition giving
      back one character at a time. */
  function Backoff(hi: nat, lo: nat, caps: Captures): (ts: seq<Thread>)
    ensures |ts| == if hi >= lo then hi - lo + 1 else 0
    ensures forall k :: 0 <= k < |ts| ==> ts[k] == Thread(hi - k, caps)
    decreases hi
  {
    if hi < lo then []
    else [Thread(hi, caps)] + (if hi == lo then [] else Backoff(hi - 1, lo, caps))
  }

  /** Every match of re on s starting at i, in backtracking order (none when
      i lies past the end). */
  function Match(re: Re, s: string, i: nat, caps: Captures): seq<Thread>
    decreases re, 0, 0
  {
    if i > |s| then []
    else match re
    case Lit(w) =>
      if i + |w| <= |s| && s[i..i + |w|] == w then [Thread(i + |w|, caps)] else []
    case Class(k) =>
      if i < |s| && InClass(s[i], k) then [Thread(i + 1, caps)] else []
    case Star(k) => Backoff(Run(s, i, k), i, caps)
    case Plus(k) => Backoff(Run(s, i, k), i + 1, caps)
    case Cat(a, b) => Then(b, s, Match(a, s, i, caps))
    case Alt(a, b) => Match(a, s, i, caps) + Match(b, s, i, caps)
    case Opt(a) => Match(a, s, i, caps) + [Thread(i, caps)]
    case Group(n, a) => Close(n, s, i, Match(a, s, i, caps))
  }

  /** Continues each thread of ts with b, keeping the order of ts. */
  function Then(b: Re, s: string, ts: seq<Thread>): seq<Thread>
    decreases b, 1, |ts|
  {
    if ts == [] then []
    else Match(b, s, ts[0].end, ts[0].caps) + Then(b, s, ts[1..])
  }

  /** s[i..j], or nothing when that is not a slice of s. */
  function Slice(s: string, i: nat, j: nat): string {
    if i <= j <= |s| then s[i..j] else []
  }

  /** Records, on each thread, the text from i to its end as capture n. */
  function Close(n: nat, s: string, i: nat, ts: seq<Thread>): seq<Thread>
    decreases |ts|
  {
    if ts == [] then []
    else [Thread(ts[0].end, ts[0].caps[n := Slice(s, i, ts[0].end)])] + Close(n, s, i, ts[1..])
  }

  /** The captures of the first thread that ends at n. */
  function First(ts: seq<Thread>, n: nat): (r: Option<Captures>)
    ensures r.Some? <==> exists k :: 0 <= k < |ts| && ts[k].end == n
    ensures r.Some? ==> exists k :: 0 <= k < |ts| && ts[k].end == n && r.value == ts[k].caps
  {
    if ts == [] then None
    else if ts[0].end == n then Some(ts[0].caps)
    else
      var r := First(ts[1..], n);
      assert forall k :: 1 <= k < |ts| ==> ts[1..][k - 1] == ts[k];
      r
  }

  /** exec of the anchored pattern ^re$ on s: the captures of the first match
      that spans all of s, or None when there is none. */
  function Exec(re: Re, s: string): Option<Captures> {
    First(Match(re, s, 0, map[]), |s|)
  }

  /** A concatenation whose first part fails at i fails at i. */
  lemma CatFails(a: Re, b: Re, s: string, i: nat, caps: Captures)
    requires i <= |s|
    requires Match(a, s, i, caps) == []
    ensures Match(Cat(a, b), s, i, caps) == []
  {
  }

  /** A concatenation whose first part matches in exactly one way continues
      from where that match ended. */
  lemma CatSingle(a: Re, b: Re, s: string, i: nat, caps: Captures, t: Thread)
    requires i <= |s|
    requires Match(a, s, i, caps) == [t]
    ensures Match(Cat(a, b), s, i, caps) == Match(b, s, t.end, t.caps)
  {
    assert Then(b, s, [t]) == Match(b, s, t.end, t.caps) + Then(b, s, []);
  }

  /** A pattern that starts with a literal fails on text that does not start
      with that literal. */
  lemma LitPrefixFails(w: string, b: Re, s: string)
    requires !(|w| <= |s| && s[..|w|] == w)
    ensures Exec(Cat(Lit(w), b), s) == None
  {
    CatFails(Lit(w), b, s, 0, map[]);
  }

  /** A pattern that starts with a literal matches only text that starts with it. */
  lemma LitPrefixNeeded(w: string, b: Re, s: string)
    requires Exec(Cat(Lit(w), b), s).Some?
    ensures |w| <= |s| && s[..|w|] == w
  {
    if !(|w| <= |s| && s[..|w|] == w) {
      LitPrefixFails(w, b, s);
    }
  }

  /** The first way re matches at i is t. The first thread of a pattern
      that ends at the end of the input is the one exec reports, so the
      lemmas below follow first threads through a pattern piece by piece. */
  predicate HeadIs(re: Re, s: string, i: nat, caps: Captures, t: Thread) {
    var m := Match(re, s, i, caps);
    |m| > 0 && m[0] == t
  }

  /** s[i..j] is the longest run of characters of cls from i. */
  predicate RunsTo(s: string, i: nat, j: nat, cls: CharClass) {
    i <= j <= |s| && (forall m :: i <= m < j ==> InClass(s[m], cls)) && (j == |s| || !InClass(s[j], cls))
  }

  lemma {:induction false} RunEnds(s: string, i: nat, j: nat, cls: CharClass)
    requires RunsTo(s, i, j, cls)
    ensures Run(s, i, cls) == j
    decreases j - i
  {
    if i < j {
      RunEnds(s, i + 1, j, cls);
    }
  }

  /** exec reports the first thread when it spans the whole input. */
  lemma ExecHead(re: Re, s: string, t: Thread)
    requires HeadIs(re, s, 0, map[], t) && t.end == |s|
    ensures Exec(re, s) == Some(t.caps)
  {
  }

  /** The first match of a concatenation continues the first match of its
      first part with the first match of the rest from there. */
  lemma CatHead(a: Re, b: Re, s: string, i: nat, caps: Captures, t: Thread, u: Thread)
    requires HeadIs(a, s, i, caps, t) && HeadIs(b, s, t.end, t.caps, u)
    ensures HeadIs(Cat(a, b), s, i, caps, u)
  {
    var m := Match(a, s, i, caps);
    assert Then(b, s, m) == Match(b, s, t.end, t.caps) + Then(b, s, m[1..]);
  }

  lemma LitHead(w: string, s: string, i: nat, caps: Captures)
    requires i + |w| <= |s| && s[i..i + |w|] == w
    ensures HeadIs(Lit(w), s, i, caps, Thread(i + |w|, caps))
  {
  }

  lemma LitMiss(w: string, s: string, i: nat, caps: Captures)
    requires !(i + |w| <= |s| && s[i..i + |w|] == w)
    ensures Match(Lit(w), s, i, caps) == []
  {
  }

  /** A literal fails where its first character is not written. */
  lemma LitFirstMiss(w: string, s: string, i: nat, caps: Captures)
    requires w != [] && i < |s| && s[i] != w[0]
    ensures Match(Lit(w), s, i, caps) == []
  {
    if i + |w| <= |s| {
      assert s[i..i + |w|][0] == s[i];
    }
    LitMiss(w, s, i, caps);
  }

  lemma ClassHead(k: CharClass, s: string, i: nat, caps: Captures)
    requires i < |s| && InClass(s[i], k)
    ensures HeadIs(Class(k), s, i, caps, Thread(i + 1, caps))
  {
  }

  lemma ClassMiss(k: CharClass, s: string, i: nat, caps: Captures)
    requires i >= |s| || !InClass(s[i], k)
    ensures Match(Class(k), s, i, caps) == []
  {
  }

  /** A greedy repetition first takes the whole run. */
  lemma StarHead(k: CharClass, s: string, i: nat, j: nat, caps: Captures)
    requires RunsTo(s, i, j, k)
    ensures HeadIs(Star(k), s, i, caps, Thread(j, caps))
  {
    RunEnds(s, i, j, k);
  }

  lemma PlusHead(k: CharClass, s: string, i: nat, j: nat, caps: Captures)
    requires RunsTo(s, i, j, k) && i < j
    ensures HeadIs(Plus(k), s, i, caps, Thread(j, caps))
  {
    RunEnds(s, i, j, k);
  }

  lemma PlusMiss(k: CharClass, s: string, i: nat, caps: Captures)
    requires i <= |s| && (i == |s| || !InClass(s[i], k))
    ensures Match(Plus(k), s, i, caps) == []
  {
    RunEnds(s, i, i, k);
  }

  /** An optional part is taken when it can be. */
  lemma OptSome(a: Re, s: string, i: nat, caps: Captures, t: Thread)
    requires HeadIs(a, s, i, caps, t)
    ensures HeadIs(Opt(a), s, i, caps, t)
  {
  }

  lemma OptNone(a: Re, s: string, i: nat, caps: Captures)
    requires i <= |s| && Match(a, s, i, caps) == []
    ensures HeadIs(Opt(a), s, i, caps, Thread(i, caps))
  {
  }

  /** The left alternative is tried first. */
  lemma AltLeft(a: Re, b: Re, s: string, i: nat, caps: Captures, t: Thread)
    requires HeadIs(a, s, i, caps, t)
    ensures HeadIs(Alt(a, b), s, i, caps, t)
  {
  }

  lemma AltRight(a: Re, b: Re, s: string, i: nat, caps: Captures, t: Thread)
    requires Match(a, s, i, caps) == [] && HeadIs(b, s, i, caps, t)
    ensures HeadIs(Alt(a, b), s, i, caps, t)
  {
  }

  /** A group records the text its first match spans. */
  lemma GroupHead(n: nat, a: Re, s: string, i: nat, caps: Captures, t: Thread)
    requires HeadIs(a, s, i, caps, t)
    ensures HeadIs(Group(n, a), s, i, caps, Thread(t.end, t.caps[n := Slice(s, i, t.end)]))
  {
  }

  lemma GroupMiss(n: nat, a: Re, s: string, i: nat, caps: Captures)
    requires Match(a, s, i, caps) == []
    ensures Match(Group(n, a), s, i, caps) == []
  {
  }

  /** Continuing threads that b cannot continue gives nothing. */
  lemma {:induction false} ThenMiss(b: Re, s: string, ts: seq<Thread>)
    requires forall k :: 0 <= k < |ts| ==> Match(b, s, ts[k].end, ts[k].caps) == []
    ensures Then(b, s, ts) == []
    decreases |ts|
  {
    if ts != [] {
      assert forall k :: 1 <= k < |ts| ==> ts[1..][k - 1] == ts[k];
      ThenMiss(b, s, ts[1..]);
    }
  }
}
