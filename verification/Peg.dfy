/** LPeg patterns, what they match, and the conservative analyses of lpcode.c.

    The fragment has no captures, run-time captures or grammars. */
module Peg {
  import opened Basics
  import opened Charsets

  type Subject = seq<Byte>

  const MAXBEHIND := 255

  /** struct TTree, for the tags without captures and grammars. */
  datatype Tree =
    | TChar(c: Byte)
    | TSet(cs: Charset)
    | TAny
    | TTrue
    | TFalse
    | TRep(body: Tree)
    | TSeq(p1: Tree, p2: Tree)
    | TChoice(p1: Tree, p2: Tree)
    | TNot(body: Tree)
    | TAnd(body: Tree)
    | TBehind(body: Tree, n: nat)

  // ------------------------------------------------------------------------------------------------
  // What a pattern matches
  // ------------------------------------------------------------------------------------------------

  /** A one-character pattern at position s. */
  predicate One(subj: Subject, s: nat, cs: Charset) {
    s < |subj| && Contains(cs, subj[s])
  }

  /** The end of the match of p at position s, by the meaning of parsing expressions.  (A repetition whose body
      matched nothing would not end; Accepted excludes it, and here it stops.) */
  function Match(p: Tree, subj: Subject, s: nat): (r: Option<nat>)
    requires s <= |subj|
    ensures r.Some? ==> r.value <= |subj|
    decreases p, |subj| - s
  {
    match p
    case TChar(c) => if s < |subj| && subj[s] == c then Some(s + 1) else None
    case TSet(cs) => if One(subj, s, cs) then Some(s + 1) else None
    case TAny => if s < |subj| then Some(s + 1) else None
    case TTrue => Some(s)
    case TFalse => None
    case TRep(body) =>
      var r := Match(body, subj, s);
      if r.None? || r.value <= s then Some(s) else Match(p, subj, r.value)
    case TSeq(p1, p2) =>
      var r := Match(p1, subj, s);
      if r.None? then None else Match(p2, subj, r.value)
    case TChoice(p1, p2) =>
      var r := Match(p1, subj, s);
      if r.None? then Match(p2, subj, s) else r
    case TNot(body) => if Match(body, subj, s).None? then Some(s) else None
    case TAnd(body) => if Match(body, subj, s).None? then None else Some(s)
    case TBehind(body, n) => if s < n then None else Match(body, subj, s - n)
  }

  // ------------------------------------------------------------------------------------------------
  // The analyses
  // ------------------------------------------------------------------------------------------------

  /** checkaux(tree, PEnullable). */
  predicate Nullable(p: Tree) {
    match p
    case TChar(_) => false
    case TSet(_) => false
    case TAny => false
    case TFalse => false
    case TRep(_) => true
    case TTrue => true
    case TNot(_) => true
    case TBehind(_, _) => true
    case TAnd(_) => true
    case TSeq(p1, p2) => Nullable(p1) && Nullable(p2)
    case TChoice(p1, p2) => Nullable(p2) || Nullable(p1)
  }

  /** checkaux(tree, PEnofail). */
  predicate NoFail(p: Tree) {
    match p
    case TChar(_) => false
    case TSet(_) => false
    case TAny => false
    case TFalse => false
    case TRep(_) => true
    case TTrue => true
    case TNot(_) => false
    case TBehind(_, _) => false
    case TAnd(body) => NoFail(body)
    case TSeq(p1, p2) => NoFail(p1) && NoFail(p2)
    case TChoice(p1, p2) => NoFail(p2) || NoFail(p1)
  }

  /** fixedlen: the number of characters of every match, or -1 if it varies. */
  function FixedLen(p: Tree): int {
    match p
    case TChar(_) => 1
    case TSet(_) => 1
    case TAny => 1
    case TFalse => 0
    case TTrue => 0
    case TNot(_) => 0
    case TAnd(_) => 0
    case TBehind(_, _) => 0
    case TRep(_) => -1
    case TSeq(p1, p2) =>
      var n1, n2 := FixedLen(p1), FixedLen(p2);
      if n1 < 0 || n2 < 0 then -1 else n1 + n2
    case TChoice(p1, p2) =>
      var n1, n2 := FixedLen(p1), FixedLen(p2);
      if n1 != n2 || n1 < 0 then -1 else n1
  }

  /** tocharset. */
  function ToCharset(p: Tree): Option<Charset> {
    match p
    case TSet(cs) => Some(cs)
    case TChar(c) => Some(Single(c))
    case TAny => Some(FullSet())
    case _ => None
  }

  /** The result of getfirst: the set, and whether the pattern may accept the empty input (a non-zero return). */
  datatype First = First(set_: Charset, empty: bool)

  /** getfirst. */
  function GetFirst(p: Tree, follow: Charset): First {
    match p
    case TChar(c) => First(Single(c), false)
    case TSet(cs) => First(cs, false)
    case TAny => First(FullSet(), false)
    case TTrue => First(follow, true)
    case TFalse => First(EmptySet(), false)
    case TChoice(p1, p2) =>
      var f1, f2 := GetFirst(p1, follow), GetFirst(p2, follow);
      First(Union(f1.set_, f2.set_), f1.empty || f2.empty)
    case TSeq(p1, p2) =>
      if !Nullable(p1) then GetFirst(p1, FullSet())
      else
        var f2 := GetFirst(p2, follow);
        var f1 := GetFirst(p1, f2.set_);
        First(f1.set_, f1.empty && f2.empty)
    case TRep(body) => First(Union(GetFirst(body, follow).set_, follow), true)
    case TAnd(body) =>
      var f := GetFirst(body, follow);
      First(Intersection(f.set_, follow), f.empty)
    case TNot(body) =>
      if ToCharset(body).Some? then First(Complement(ToCharset(body).value), true) else First(follow, true)
    case TBehind(_, _) => First(follow, true)
  }

  /** headfail. */
  predicate HeadFail(p: Tree) {
    match p
    case TChar(_) => true
    case TSet(_) => true
    case TAny => true
    case TFalse => true
    case TTrue => false
    case TRep(_) => false
    case TNot(_) => false
    case TBehind(_, _) => false
    case TAnd(body) => HeadFail(body)
    case TSeq(p1, p2) => NoFail(p2) && HeadFail(p1)
    case TChoice(p1, p2) => HeadFail(p1) && HeadFail(p2)
  }

  /** The trees lptree.c builds: a loop body is not nullable, a look-behind has a fixed and small length. */
  predicate Accepted(p: Tree) {
    match p
    case TRep(body) => Accepted(body) && !Nullable(body)
    case TSeq(p1, p2) => Accepted(p1) && Accepted(p2)
    case TChoice(p1, p2) => Accepted(p1) && Accepted(p2)
    case TNot(body) => Accepted(body)
    case TAnd(body) => Accepted(body)
    case TBehind(body, n) => Accepted(body) && FixedLen(body) == n <= MAXBEHIND
    case _ => true
  }

  // ------------------------------------------------------------------------------------------------
  // Soundness
  // ------------------------------------------------------------------------------------------------

  /** A match never ends before it starts; nullable, nofail and fixedlen are what their comments promise. */
  lemma {:induction false} Conservative(p: Tree, subj: Subject, s: nat)
    requires Accepted(p) && s <= |subj|
    ensures Match(p, subj, s).Some? ==> s <= Match(p, subj, s).value
    ensures Match(p, subj, s) == Some(s) ==> Nullable(p)
    ensures NoFail(p) ==> Match(p, subj, s).Some?
    ensures Match(p, subj, s).Some? && FixedLen(p) >= 0 ==> Match(p, subj, s).value == s + FixedLen(p)
    decreases p, |subj| - s
  {
    match p
    case TRep(body) =>
      Conservative(body, subj, s);
      var r := Match(body, subj, s);
      if r.Some? && r.value > s {
        Conservative(p, subj, r.value);
      }
    case TSeq(p1, p2) =>
      Conservative(p1, subj, s);
      var r := Match(p1, subj, s);
      if r.Some? {
        Conservative(p2, subj, r.value);
      }
    case TChoice(p1, p2) =>
      Conservative(p1, subj, s);
      Conservative(p2, subj, s);
    case TAnd(body) => Conservative(body, subj, s);
    case TNot(body) => Conservative(body, subj, s);
    case TBehind(body, n) =>
      if s >= n {
        Conservative(body, subj, s - n);
      }
    case _ =>
  }

  /** The first set: a character at which p matches, consuming it or leaving a follow character, is in the set. */
  lemma {:induction false} FirstSound(p: Tree, follow: Charset, subj: Subject, s: nat)
    requires Accepted(p) && s < |subj|
    requires Match(p, subj, s).Some?
    requires Match(p, subj, s).value > s || Contains(follow, subj[s])
    ensures Contains(GetFirst(p, follow).set_, subj[s])
    decreases p
  {
    hide Contains;
    var c := subj[s];
    Conservative(p, subj, s);
    match p
    case TChar(d) => SingleContains(d, c);
    case TAny => FullContains(c);
    case TChoice(p1, p2) =>
      UnionContains(GetFirst(p1, follow).set_, GetFirst(p2, follow).set_, c);
      if Match(p1, subj, s).Some? {
        FirstSound(p1, follow, subj, s);
      } else {
        FirstSound(p2, follow, subj, s);
      }
    case TSeq(p1, p2) =>
      Conservative(p1, subj, s);
      FullContains(c);
      var f2 := GetFirst(p2, follow);
      if Match(p1, subj, s) == Some(s) {
        FirstSound(p2, follow, subj, s);
      }
      FirstSound(p1, if Nullable(p1) then f2.set_ else FullSet(), subj, s);
    case TRep(body) =>
      UnionContains(GetFirst(body, follow).set_, follow, c);
      if Match(body, subj, s).Some? {
        Conservative(body, subj, s);
        FirstSound(body, follow, subj, s);
      }
    case TAnd(body) =>
      IntersectionContains(GetFirst(body, follow).set_, follow, c);
      FirstSound(body, follow, subj, s);
    case TNot(body) =>
      if ToCharset(body).Some? {
        ComplementContains(ToCharset(body).value, c);
        ToCharsetSound(body, subj, s);
      }
    case TBehind(body, n) => Conservative(body, subj, s - n);
    case _ =>
  }

  lemma ToCharsetSound(p: Tree, subj: Subject, s: nat)
    requires s <= |subj| && ToCharset(p).Some?
    ensures Match(p, subj, s) == if One(subj, s, ToCharset(p).value) then Some(s + 1) else None
  {
    hide Contains;
    if s < |subj| {
      if p.TChar? {
        SingleContains(p.c, subj[s]);
      }
      FullContains(subj[s]);
    }
  }

  /** A zero return of getfirst: p fails at the end of the input. */
  lemma {:induction false} FirstNonEmpty(p: Tree, follow: Charset, subj: Subject)
    requires Accepted(p) && !GetFirst(p, follow).empty
    ensures Match(p, subj, |subj|).None?
  {
    match p
    case TChoice(p1, p2) =>
      FirstNonEmpty(p1, follow, subj);
      FirstNonEmpty(p2, follow, subj);
    case TSeq(p1, p2) =>
      Conservative(p1, subj, |subj|);
      if Nullable(p1) {
        var f2 := GetFirst(p2, follow);
        if !GetFirst(p1, f2.set_).empty {
          FirstNonEmpty(p1, f2.set_, subj);
        } else {
          FirstNonEmpty(p2, follow, subj);
        }
      }
    case TAnd(body) => FirstNonEmpty(body, follow, subj);
    case _ =>
  }

  /** A head-fail pattern depends on the next character only, and only on whether it is in the first set. */
  lemma {:induction false} HeadFailSound(p: Tree, follow: Charset, subj: Subject, s: nat)
    requires Accepted(p) && HeadFail(p) && s <= |subj|
    ensures !GetFirst(p, follow).empty
    ensures One(subj, s, GetFirst(p, follow).set_) ==> Match(p, subj, s).Some?
    ensures Match(p, subj, s).Some? ==> s < |subj|
    decreases p
  {
    hide Contains;
    if s < |subj| {
      var c := subj[s];
      match p
      case TChar(d) => SingleContains(d, c);
      case TFalse => EmptyContains(c);
      case TChoice(p1, p2) => UnionContains(GetFirst(p1, follow).set_, GetFirst(p2, follow).set_, c);
      case TAnd(body) => IntersectionContains(GetFirst(body, follow).set_, follow, c);
      case _ =>
    }
    match p
    case TChoice(p1, p2) =>
      HeadFailSound(p1, follow, subj, s);
      HeadFailSound(p2, follow, subj, s);
    case TAnd(body) => HeadFailSound(body, follow, subj, s);
    case TSeq(p1, p2) =>
      HeadFailSound(p1, if Nullable(p1) then GetFirst(p2, follow).set_ else FullSet(), subj, s);
      var r := Match(p1, subj, s);
      if r.Some? {
        Conservative(p2, subj, r.value);
      }
    case _ =>
  }

  /**
   * The documented reading of headfail: with every character allowed to follow,
   * p succeeds exactly on its first set.
   */
  lemma HeadFailExact(p: Tree, subj: Subject, s: nat)
    requires Accepted(p) && HeadFail(p) && s <= |subj|
    ensures Match(p, subj, s).Some? <==> One(subj, s, GetFirst(p, FullSet()).set_)
  {
    hide Contains;
    HeadFailSound(p, FullSet(), subj, s);
    if Match(p, subj, s).Some? {
      FullContains(subj[s]);
      Conservative(p, subj, s);
      FirstSound(p, FullSet(), subj, s);
    }
  }

  // ------------------------------------------------------------------------------------------------
  // Completeness
  // ------------------------------------------------------------------------------------------------

  /** A pattern without predicates. */
  predicate Plain(p: Tree) {
    match p
    case TRep(body) => Plain(body)
    case TSeq(p1, p2) => Plain(p1) && Plain(p2)
    case TChoice(p1, p2) => Plain(p1) && Plain(p2)
    case TNot(_) => false
    case TAnd(_) => false
    case TBehind(_, _) => false
    case _ => true
  }

  /** For patterns without predicates nullable, nofail and the result of getfirst are exact: each says whether the
      pattern matches the empty subject. */
  lemma {:induction false} ExactOnEmpty(p: Tree, follow: Charset)
    requires Accepted(p) && Plain(p)
    ensures Match(p, [], 0).Some? <==> Nullable(p)
    ensures NoFail(p) <==> Nullable(p)
    ensures GetFirst(p, follow).empty <==> Nullable(p)
    decreases p
  {
    match p
    case TRep(body) => ExactOnEmpty(body, follow);
    case TSeq(p1, p2) =>
      ExactOnEmpty(p1, FullSet());
      ExactOnEmpty(p2, follow);
      ExactOnEmpty(p1, GetFirst(p2, follow).set_);
    case TChoice(p1, p2) =>
      ExactOnEmpty(p1, follow);
      ExactOnEmpty(p2, follow);
    case _ =>
  }
}
