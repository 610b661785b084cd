/**
 * The fragment of JavaScript regular expressions the pages use: an anchored
 * pattern `/^(?=.*[A1])...(?=.*[Ak])[B]{m,n}$/` without flags. `Test` evaluates
 * such a pattern at position 0 by scanning the string: each lookahead walks
 * forward to a class member, then the body class must run to the end; `Means`
 * states the same condition declaratively, and `TestMeans` proves them equal.
 */
module JsRegex {
  import opened Wrappers
  import opened JsText

  /** A bracketed character class, given by its membership test. */
  type Class = char -> bool

  /**
   * `^(?=.*[lookaheads[0]])...[body]{min,max}$`; `max == None` is an open
   * upper bound (`{min,}`, `*` when min is 0, `+` when min is 1).
   */
  datatype Pattern = Pattern(lookaheads: seq<Class>, body: Class, min: nat, max: Option<nat>)

  /** How far `[body]*` runs from the start of `s`: the longest prefix inside the class. */
  function ClassRun(s: string, body: Class): (n: nat)
    ensures n <= |s|
    ensures forall i :: 0 <= i < n ==> body(s[i])
    ensures n < |s| ==> !body(s[n])
    decreases |s|
  {
    if s == [] || !body(s[0]) then 0 else 1 + ClassRun(s[1..], body)
  }

  /**
   * `(?=.*[cls])` at position 0: `.` (no line terminators) consumes characters
   * until one of the class is found.
   */
  predicate LookaheadHolds(s: string, cls: Class)
    decreases |s|
  {
    |s| > 0 && (cls(s[0]) || (!IsLineTerminator(s[0]) && LookaheadHolds(s[1..], cls)))
  }

  predicate AllLookaheadsHold(s: string, las: seq<Class>)
    decreases |las|
  {
    |las| == 0 || (LookaheadHolds(s, las[0]) && AllLookaheadsHold(s, las[1..]))
  }

  /** `p.test(s)` for a pattern without the `g`, `m`, `s` or `u` flags. */
  predicate Test(p: Pattern, s: string)
    ensures Test(p, s) ==> forall i :: 0 <= i < |s| ==> p.body(s[i])
  {
    AllLookaheadsHold(s, p.lookaheads)
    && ClassRun(s, p.body) == |s|
    && p.min <= |s|
    && (p.max.None? || |s| <= p.max.value)
  }

  /** Some character of the class occurs before the first line terminator. */
  ghost predicate FoundOnFirstLine(s: string, cls: Class) {
    exists i :: 0 <= i < |s| && cls(s[i]) && forall j :: 0 <= j < i ==> !IsLineTerminator(s[j])
  }

  /** What the pattern requires of `s`, stated without scanning. */
  ghost predicate Means(p: Pattern, s: string) {
    (forall k :: 0 <= k < |p.lookaheads| ==> FoundOnFirstLine(s, p.lookaheads[k]))
    && (forall i :: 0 <= i < |s| ==> p.body(s[i]))
    && p.min <= |s|
    && (p.max.None? || |s| <= p.max.value)
  }

  lemma {:induction false} LookaheadMeans(s: string, cls: Class)
    ensures LookaheadHolds(s, cls) <==> FoundOnFirstLine(s, cls)
    decreases |s|
  {
    if |s| > 0 {
      LookaheadMeans(s[1..], cls);
      if FoundOnFirstLine(s[1..], cls) && !IsLineTerminator(s[0]) {
        var i :| 0 <= i < |s| - 1 && cls(s[1..][i]) && forall j :: 0 <= j < i ==> !IsLineTerminator(s[1..][j]);
        assert cls(s[i + 1]) && forall j :: 0 <= j < i + 1 ==> !IsLineTerminator(s[j]);
      }
      if FoundOnFirstLine(s, cls) && !cls(s[0]) {
        var i :| 0 <= i < |s| && cls(s[i]) && forall j :: 0 <= j < i ==> !IsLineTerminator(s[j]);
        assert i > 0;
        assert cls(s[1..][i - 1]) && forall j :: 0 <= j < i - 1 ==> !IsLineTerminator(s[1..][j]);
      }
    }
  }

  lemma {:induction false} AllLookaheadsMean(s: string, las: seq<Class>)
    ensures AllLookaheadsHold(s, las) <==> forall k :: 0 <= k < |las| ==> FoundOnFirstLine(s, las[k])
    decreases |las|
  {
    if |las| > 0 {
      LookaheadMeans(s, las[0]);
      AllLookaheadsMean(s, las[1..]);
      assert forall k :: 1 <= k < |las| ==> las[k] == las[1..][k - 1];
    }
  }

  /** The scanning evaluation and the declarative meaning agree on every string. */
  lemma TestMeans(p: Pattern, s: string)
    ensures Test(p, s) <==> Means(p, s)
  {
    AllLookaheadsMean(s, p.lookaheads);
  }

  /**
   * On a string without line terminators a lookahead `(?=.*[cls])` only asks
   * that some character be in the class.
   */
  lemma LookaheadOnOneLine(s: string, cls: Class)
    requires forall i :: 0 <= i < |s| ==> !IsLineTerminator(s[i])
    ensures LookaheadHolds(s, cls) <==> exists i :: 0 <= i < |s| && cls(s[i])
  {
    LookaheadMeans(s, cls);
  }
}
