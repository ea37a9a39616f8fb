/**
 Directory entries and their order: directories before files, each kind by name. `body` is what an
 entry leads to: on disk the root of a hash tree, in the model of a whole file system a subtree.
 */
module Directory {
  import opened Bytes
  import BPack

  type Name = seq<byte>
  type Mode = x: int | 0 <= x < 0x1_0000_0000

  const DOT: Name := [46]
  const MODE_DIR: Mode := 0x8000_0000
  const MAX_NAME: nat := 65535

  datatype Ent<+B> = Ent(name: Name, size: Int64, mtime: Int64, mode: Mode, body: B) {
    predicate IsDir() { mode >= MODE_DIR }
  }

  /** Set the directory bit. */
  function AsDir(mode: Mode): Mode {
    if mode >= MODE_DIR then mode else mode + MODE_DIR
  }

  // ---------------------------------------------------------------- order

  predicate Less<B>(a: Ent<B>, b: Ent<B>) {
    if a.IsDir() && !b.IsDir() then true
    else if !a.IsDir() && b.IsDir() then false
    else BPack.KeyLess(a.name, b.name)
  }

  lemma LessTotal<B>(a: Ent<B>, b: Ent<B>)
    ensures !(Less(a, b) && Less(b, a))
    ensures !Less(a, b) && !Less(b, a) <==> a.name == b.name && (a.IsDir() <==> b.IsDir())
  {
    BPack.KeyLessTotal(a.name, b.name);
  }

  lemma LessTrans<B>(a: Ent<B>, b: Ent<B>, c: Ent<B>)
    requires Less(a, b) && Less(b, c)
    ensures Less(a, c)
  {
    if (a.IsDir() <==> b.IsDir()) && (b.IsDir() <==> c.IsDir()) { BPack.KeyLessTrans(a.name, b.name, c.name); }
  }

  lemma LessWeak<B>(a: Ent<B>, b: Ent<B>, c: Ent<B>)
    requires !Less(b, a) && !Less(c, b)
    ensures !Less(c, a)
  {
    LessTotal(a, b);
    LessTotal(b, c);
    LessTotal(a, c);
    if Less(a, b) && Less(b, c) { LessTrans(a, b, c); }
  }

  /** What sort.Sort promises; entries that neither precede the other come in any order. */
  ghost predicate Sorted<B>(s: seq<Ent<B>>) {
    forall i, j | 0 <= i < j < |s| :: !Less(s[j], s[i])
  }

  ghost predicate Strict<B>(s: seq<Ent<B>>) {
    forall i, j | 0 <= i < j < |s| :: Less(s[i], s[j])
  }

  function Insert<B>(e: Ent<B>, s: seq<Ent<B>>): (r: seq<Ent<B>>)
    ensures multiset(r) == multiset(s) + multiset{e} && |r| == |s| + 1
  {
    if s == [] || Less(e, s[0]) then [e] + s
    else
      assert s == [s[0]] + s[1..];
      [s[0]] + Insert(e, s[1..])
  }

  function Sort<B>(s: seq<Ent<B>>): (r: seq<Ent<B>>)
    ensures multiset(r) == multiset(s) && |r| == |s|
  {
    if s == [] then []
    else
      assert s == [s[0]] + s[1..];
      Insert(s[0], Sort(s[1..]))
  }

  lemma {:induction false} InsertSorted<B>(e: Ent<B>, s: seq<Ent<B>>)
    requires Sorted(s)
    ensures Sorted(Insert(e, s))
  {
    hide Less;
    if s == [] {
    } else if Less(e, s[0]) {
      LessTotal(e, s[0]);
      forall j | 0 <= j < |s| ensures !Less(s[j], e) {
        if j > 0 { LessWeak(e, s[0], s[j]); }
      }
    } else {
      var rest := Insert(e, s[1..]);
      InsertSorted(e, s[1..]);
      assert forall j | 1 <= j < |s| :: s[1..][j - 1] == s[j];
      forall j | 0 <= j < |rest| ensures !Less(rest[j], s[0]) {
        assert rest[j] in multiset(rest);
        assert rest[j] == e || rest[j] in multiset(s[1..]);
      }
    }
  }

  lemma {:induction false} SortSorts<B>(s: seq<Ent<B>>)
    ensures Sorted(Sort(s))
  {
    if s != [] {
      SortSorts(s[1..]);
      InsertSorted(s[0], Sort(s[1..]));
    }
  }

  lemma {:induction false} SortStrict<B>(s: seq<Ent<B>>)
    requires Strict(s)
    ensures Sort(s) == s
  {
    if s != [] {
      SortStrict(s[1..]);
      assert s == [s[0]] + s[1..];
    }
  }

  /** With no ties there is no choice: any sorting algorithm gives the same list. */
  lemma {:induction false} StrictUnique<B>(a: seq<Ent<B>>, b: seq<Ent<B>>)
    requires Strict(a) && Sorted(b) && multiset(a) == multiset(b)
    ensures a == b
  {
    hide Less;
    SameLength(a, b);
    if a != [] {
      FirstLeast(a, b);
      TailMultiset(a);
      TailMultiset(b);
      SortedTails(a, b);
      StrictUnique(a[1..], b[1..]);
      assert a == [a[0]] + a[1..] && b == [b[0]] + b[1..];
    }
  }

  lemma SortedTails<B>(a: seq<Ent<B>>, b: seq<Ent<B>>)
    requires Strict(a) && Sorted(b) && a != [] && b != []
    ensures Strict(a[1..]) && Sorted(b[1..])
  {
    hide Less;
  }

  lemma FirstLeast<B>(a: seq<Ent<B>>, b: seq<Ent<B>>)
    requires Strict(a) && Sorted(b) && multiset(a) == multiset(b) && a != [] && b != []
    ensures a[0] == b[0]
  {
    hide Less;
    SameMembers(a, b, a[0]);
    SameMembers(a, b, b[0]);
    var i :| 0 <= i < |a| && a[i] == b[0];
    var j :| 0 <= j < |b| && b[j] == a[0];
    LessTotal(a[0], b[0]);
  }

  // ---------------------------------------------------------------- acceptance

  /** The loop of WriteDir: no entry but the last may be called ".", no neighbours may share a name. */
  ghost predicate Checked<B>(s: seq<Ent<B>>) {
    forall i | 0 <= i < |s| - 1 :: s[i].name != DOT && s[i].name != s[i + 1].name
  }

  ghost predicate NamesFit<B>(s: seq<Ent<B>>) {
    forall i | 0 <= i < |s| :: |s[i].name| <= MAX_NAME
  }

  /** WriteDir takes the entries. */
  ghost predicate Accepts<B>(es: seq<Ent<B>>) {
    Checked(Sort(es)) && NamesFit(es)
  }

  ghost predicate Between<B>(a: Ent<B>, c: Ent<B>, b: Ent<B>) {
    Less(a, c) && Less(c, b)
  }

  /** Nothing is listed twice. */
  ghost predicate Once<B>(es: seq<Ent<B>>) {
    forall e <- es :: multiset(es)[e] == 1
  }

  /** Two entries of one name have another entry strictly between them. */
  ghost predicate Apart<B>(es: seq<Ent<B>>) {
    forall a, b | a in es && b in es && a != b && a.name == b.name ::
      exists c <- es :: Between(a, c, b) || Between(b, c, a)
  }

  /** Only the greatest entry may be called ".". */
  ghost predicate DotLast<B>(es: seq<Ent<B>>) {
    forall a, b | a in es && b in es && a != b && a.name == DOT :: Less(b, a)
  }

  /** What WriteDir takes, said without sorting. */
  ghost predicate Acceptable<B>(es: seq<Ent<B>>) {
    NamesFit(es) && Once(es) && Apart(es) && DotLast(es)
  }

  lemma {:induction false} CheckedStrict<B>(s: seq<Ent<B>>)
    requires Sorted(s) && Checked(s)
    ensures Strict(s)
  {
    hide Less;
    forall i, j | 0 <= i < j < |s| ensures Less(s[i], s[j]) { Ascends(s, i, j); }
  }

  lemma {:induction false} Ascends<B>(s: seq<Ent<B>>, i: nat, j: nat)
    requires Sorted(s) && Checked(s) && i < j < |s|
    ensures Less(s[i], s[j])
    decreases j
  {
    hide Less;
    LessTotal(s[j - 1], s[j]);
    if i < j - 1 {
      Ascends(s, i, j - 1);
      LessTrans(s[i], s[j - 1], s[j]);
    }
  }

  lemma StrictOnce<B>(s: seq<Ent<B>>, i: nat)
    requires Strict(s) && i < |s|
    ensures multiset(s)[s[i]] == 1
  {
    hide Less;
    var l, r := s[..i], s[i + 1..];
    assert s == l + [s[i]] + r;
    forall k | 0 <= k < |l| ensures l[k] != s[i] { LessTotal(s[k], s[i]); }
    forall k | 0 <= k < |r| ensures r[k] != s[i] { LessTotal(s[i], s[i + 1 + k]); }
    assert s[i] !in multiset(l) && s[i] !in multiset(r);
  }

  lemma TwiceCounts<B>(s: seq<Ent<B>>, i: nat, j: nat)
    requires i < j < |s| && s[i] == s[j]
    ensures multiset(s)[s[i]] >= 2
  {
    assert s == s[..i] + [s[i]] + s[i + 1..j] + [s[j]] + s[j + 1..];
  }

  /** Whatever order ties are left in, WriteDir takes exactly the acceptable lists. */
  lemma AcceptIff<B>(es: seq<Ent<B>>, s: seq<Ent<B>>)
    requires Sorted(s) && multiset(s) == multiset(es)
    ensures Acceptable(es) <==> Checked(s) && NamesFit(s)
  {
    hide Sorted, Checked, NamesFit, Acceptable;
    FitsSame(es, s);
    if Checked(s) && NamesFit(s) { CheckedAcceptable(es, s); }
    if Acceptable(es) { AcceptableChecked(es, s); }
  }

  /** An accepted list has one sorted form, whatever order it is given in. */
  lemma SortSame<B>(a: seq<Ent<B>>, b: seq<Ent<B>>)
    requires Acceptable(a) && multiset(a) == multiset(b)
    ensures Acceptable(b) && Sort(a) == Sort(b)
  {
    hide Acceptable, Sort, Sorted, Checked, NamesFit;
    SortSorts(a);
    SortSorts(b);
    AcceptIff(a, Sort(a));
    CheckedStrict(Sort(a));
    StrictUnique(Sort(a), Sort(b));
    AcceptIff(b, Sort(b));
  }

  lemma CheckedAcceptable<B>(es: seq<Ent<B>>, s: seq<Ent<B>>)
    requires Sorted(s) && multiset(s) == multiset(es) && Checked(s) && NamesFit(es)
    ensures Acceptable(es)
  {
    hide Less, NamesFit, DotLast;
    forall e ensures e in es <==> e in s { SameMembers(es, s, e); }
    CheckedStrict(s);
    forall e <- es ensures multiset(es)[e] == 1 {
      var i :| 0 <= i < |s| && s[i] == e;
      StrictOnce(s, i);
    }
    forall a, b | a in es && b in es && a != b && a.name == b.name
      ensures exists c <- es :: Between(a, c, b) || Between(b, c, a)
    {
      Separated(s, a, b);
    }
    DotsLast(es, s);
  }

  lemma DotOnlyLast<B>(s: seq<Ent<B>>, i: nat)
    requires Checked(s)
    ensures i + 1 < |s| ==> s[i].name != DOT
  {
    assert i + 1 < |s| ==> s[i].name != s[i + 1].name;
  }

  lemma DotsLast<B>(es: seq<Ent<B>>, s: seq<Ent<B>>)
    requires Strict(s) && Checked(s) && multiset(s) == multiset(es)
    ensures DotLast(es)
  {
    hide Less, DOT;
    forall a, b | a in es && b in es && a != b && a.name == DOT ensures Less(b, a) {
      SameMembers(es, s, a);
      SameMembers(es, s, b);
      var i :| 0 <= i < |s| && s[i] == a;
      var j :| 0 <= j < |s| && s[j] == b;
      DotOnlyLast(s, i);
    }
  }

  lemma AcceptableChecked<B>(es: seq<Ent<B>>, s: seq<Ent<B>>)
    requires Sorted(s) && multiset(s) == multiset(es) && Acceptable(es)
    ensures Checked(s) && NamesFit(es)
  {
    hide Less, NamesFit, Once, Apart, DotLast;
    forall i | 0 <= i < |s| - 1 ensures s[i].name != DOT && s[i].name != s[i + 1].name {
      Neighbours(es, s, i);
    }
  }

  lemma Neighbours<B>(es: seq<Ent<B>>, s: seq<Ent<B>>, i: nat)
    requires Sorted(s) && multiset(s) == multiset(es) && Once(es) && Apart(es) && DotLast(es) && i + 1 < |s|
    ensures s[i].name != DOT && s[i].name != s[i + 1].name
  {
    hide Less, DOT;
    var a, b := s[i], s[i + 1];
    SameMembers(es, s, a);
    SameMembers(es, s, b);
    if a == b { TwiceCounts(s, i, i + 1); }
    forall c <- es ensures c in s { SameMembers(es, s, c); }
    NothingBetween(es, s, i);
  }

  lemma FitsSame<B>(es: seq<Ent<B>>, s: seq<Ent<B>>)
    requires multiset(s) == multiset(es)
    ensures NamesFit(es) <==> NamesFit(s)
  {
    forall i | 0 <= i < |s| ensures s[i] in es { SameMembers(es, s, s[i]); }
    forall i | 0 <= i < |es| ensures es[i] in s { SameMembers(es, s, es[i]); }
    assert NamesFit(es) ==> forall e <- es :: |e.name| <= MAX_NAME;
    assert NamesFit(s) ==> forall e <- s :: |e.name| <= MAX_NAME;
  }

  lemma Separated<B>(s: seq<Ent<B>>, a: Ent<B>, b: Ent<B>)
    requires Strict(s) && Checked(s) && a in s && b in s && a != b && a.name == b.name
    ensures exists c <- s :: Between(a, c, b) || Between(b, c, a)
  {
    hide Less;
    var i :| 0 <= i < |s| && s[i] == a;
    var j :| 0 <= j < |s| && s[j] == b;
    var k := (if i < j then i else j) + 1;
    assert s[k - 1].name != s[k].name;
    assert Between(a, s[k], b) || Between(b, s[k], a);
  }

  lemma NothingBetween<B>(es: seq<Ent<B>>, s: seq<Ent<B>>, i: nat)
    requires Sorted(s) && i + 1 < |s| && forall c <- es :: c in s
    ensures !exists c <- es :: Between(s[i], c, s[i + 1]) || Between(s[i + 1], c, s[i])
  {
    hide Less;
    forall c <- es ensures !Between(s[i], c, s[i + 1]) && !Between(s[i + 1], c, s[i]) {
      var k :| 0 <= k < |s| && s[k] == c;
      LessTotal(s[i], c);
      LessTotal(s[i + 1], c);
    }
  }

  /** Distinct names, none of them ".", short enough: what the error messages of WriteDir promise. */
  ghost predicate Proper<B>(es: seq<Ent<B>>) {
    && NamesFit(es)
    && (forall i | 0 <= i < |es| :: es[i].name != DOT)
    && (forall i, j | 0 <= i < j < |es| :: es[i].name != es[j].name)
  }

  /** No directory and file share a name, and nothing is called ".". */
  ghost predicate KindsApart<B>(es: seq<Ent<B>>) {
    && (forall a, b | a in es && b in es && a.IsDir() && !b.IsDir() :: a.name != b.name)
    && (forall a <- es :: a.name != DOT)
  }

  /** What is proper is taken, and what is taken is proper unless a directory and a file share a name
      or the greatest entry is called ".". */
  lemma ProperIff<B>(es: seq<Ent<B>>)
    requires NamesFit(es)
    ensures Proper(es) <==> Acceptable(es) && KindsApart(es)
  {
    if Proper(es) { ProperAcceptable(es); }
    if Acceptable(es) && KindsApart(es) {
      hide Less;
      forall i, j | 0 <= i < j < |es| && es[i].name == es[j].name ensures false {
        var a, b := es[i], es[j];
        assert a in es && b in es;
        if a == b {
          TwiceCounts(es, i, j);
        } else {
          var c :| c in es && (Between(a, c, b) || Between(b, c, a));
          LessTotal(a, b);
          if Between(a, c, b) { LessTrans(a, c, b); } else { LessTrans(b, c, a); }
        }
      }
    }
  }

  lemma ProperAcceptable<B>(es: seq<Ent<B>>)
    requires Proper(es)
    ensures Acceptable(es)
  {
    hide Less, Sort;
    var s := Sort(es);
    SortSorts(es);
    forall i | 0 <= i < |s| - 1 ensures s[i].name != DOT && s[i].name != s[i + 1].name {
      SameMembers(es, s, s[i]);
      SameMembers(es, s, s[i + 1]);
      if s[i] == s[i + 1] { Twice(s, i); }
      ProperOnce(es, s[i]);
    }
    FitsSame(es, s);
    AcceptIff(es, s);
  }

  lemma Twice<T>(s: seq<T>, i: nat)
    requires i + 1 < |s| && s[i] == s[i + 1]
    ensures multiset(s)[s[i]] >= 2
  {
    assert s == s[..i] + [s[i]] + [s[i + 1]] + s[i + 2..];
  }

  lemma {:induction false} ProperOnce<B>(es: seq<Ent<B>>, e: Ent<B>)
    requires Proper(es) && e in es
    ensures multiset(es)[e] == 1
  {
    var i :| 0 <= i < |es| && es[i] == e;
    assert es == es[..i] + [e] + es[i + 1..];
    assert e !in es[..i] && e !in es[i + 1..];
    assert e !in multiset(es[..i]) && e !in multiset(es[i + 1..]);
  }

  /** Two directories and a file named like the first. */
  ghost function Twins<B>(a: B, b: B, c: B): (es: seq<Ent<B>>)
    ensures |es| == 3
  {
    [Ent([97], 0, 0, MODE_DIR, a), Ent([98], 0, 0, MODE_DIR, b), Ent([97], 0, 0, 0, c)]
  }

  lemma TwinsShape<B>(a: B, b: B, c: B)
    ensures var es := Twins(a, b, c);
      && Strict(es) && Checked(es) && NamesFit(es)
      && Strict([es[0], es[2]]) && !Checked([es[0], es[2]])
  {
    hide Less;
    LessSamples(a, b, c);
    var pair := [Twins(a, b, c)[0], Twins(a, b, c)[2]];
    assert pair[0].name == pair[0 + 1].name;
  }

  lemma LessSamples<B>(a: B, b: B, c: B)
    ensures var es := Twins(a, b, c); Less(es[0], es[1]) && Less(es[1], es[2]) && Less(es[0], es[2])
  {
  }

  /** They are taken, but not once the one between is gone. */
  lemma DuplicateTaken<B>(a: B, b: B, c: B)
    ensures var es := Twins(a, b, c);
      && Accepts(es) && Acceptable(es) && Sort(es) == es
      && !Accepts([es[0], es[2]]) && !Acceptable([es[0], es[2]])
  {
    hide Acceptable, Less, Sort, Sorted, Strict, Checked, NamesFit, Twins;
    var es := Twins(a, b, c);
    var pair := [es[0], es[2]];
    TwinsShape(a, b, c);
    SortStrict(es);
    SortStrict(pair);
    SortSorts(es);
    SortSorts(pair);
    AcceptIff(es, es);
    AcceptIff(pair, pair);
  }

  /** A lone "." is taken. */
  lemma DotTaken<B>(b: B)
    ensures Acceptable([Ent(DOT, 0, 0, 0, b)])
  {
    hide Less, Acceptable;
    AcceptIff([Ent(DOT, 0, 0, 0, b)], [Ent(DOT, 0, 0, 0, b)]);
  }
}
