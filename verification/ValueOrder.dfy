/** The order that sorted sets keep: by score, and by member where scores agree. */
module ValueOrder {

  /** One tree value. Scores are reals: an order without NaN. */
  datatype Value = Value(member: string, score: real)

  /** `std::string::operator<`: lexicographic, a proper prefix comes first. */
  predicate StringLess(a: string, b: string) {
    && |b| > 0
    && (|a| == 0 || a[0] < b[0] || (a[0] == b[0] && StringLess(a[1..], b[1..])))
  }

  /** `AVLTreeNodeValue::operator<`. */
  predicate Less(a: Value, b: Value) {
    if a.score == b.score then StringLess(a.member, b.member) else a.score < b.score
  }

  /** The member that comes first where scores agree: a proper prefix, or the smaller character at the first difference. */
  ghost predicate Smaller(a: string, b: string) {
    || (|a| < |b| && a == b[..|a|])
    || exists i :: 0 <= i < |a| && i < |b| && a[..i] == b[..i] && a[i] < b[i]
  }

  lemma {:induction false} StringLessIsSmaller(a: string, b: string)
    ensures StringLess(a, b) <==> Smaller(a, b)
  {
    if |a| > 0 && |b| > 0 && a[0] == b[0] {
      StringLessIsSmaller(a[1..], b[1..]);
      SmallerTails(a, b);
    } else if |a| > 0 && |b| > 0 && a[0] < b[0] {
      assert a[..0] == b[..0];
    } else if |a| > 0 && Smaller(a, b) {
      SmallerStartsNoHigher(a, b);
    }
  }

  lemma SmallerStartsNoHigher(a: string, b: string)
    requires |a| > 0 && Smaller(a, b)
    ensures |b| > 0 && a[0] <= b[0]
  {
    if |a| < |b| && a == b[..|a|] {
      assert a[0] == b[..|a|][0];
    } else {
      var i :| 0 <= i < |a| && i < |b| && a[..i] == b[..i] && a[i] < b[i];
      assert i > 0 ==> a[..i][0] == b[..i][0];
    }
  }

  /** Equal first characters do not decide. */
  lemma SmallerTails(a: string, b: string)
    requires |a| > 0 && |b| > 0 && a[0] == b[0]
    ensures Smaller(a, b) <==> Smaller(a[1..], b[1..])
  {
    var (s, t) := (a[1..], b[1..]);
    assert a == [a[0]] + s && b == [b[0]] + t;
    if |s| < |t| && s == t[..|s|] {
      assert b[..|a|] == [b[0]] + t[..|s|];
    }
    if |a| < |b| && a == b[..|a|] {
      assert t[..|s|] == b[..|a|][1..];
    }
    forall i | 0 <= i < |s| && i < |t| && s[..i] == t[..i] && s[i] < t[i] ensures Smaller(a, b) {
      assert a[..i + 1] == [a[0]] + s[..i] && b[..i + 1] == [b[0]] + t[..i];
      assert a[i + 1] < b[i + 1];
    }
    forall i | 0 <= i < |a| && i < |b| && a[..i] == b[..i] && a[i] < b[i] ensures Smaller(s, t) {
      assert s[..i - 1] == a[..i][1..] && t[..i - 1] == b[..i][1..];
      assert s[i - 1] < t[i - 1];
    }
  }

  /** A smaller score comes first; where scores agree, the smaller member does. */
  lemma LessByScoreThenMember(a: Value, b: Value)
    ensures Less(a, b) <==> a.score < b.score || (a.score == b.score && Smaller(a.member, b.member))
  {
    StringLessIsSmaller(a.member, b.member);
  }

  lemma {:induction false} StringLessIrreflexive(a: string)
    ensures !StringLess(a, a)
  {
    if |a| > 0 {
      StringLessIrreflexive(a[1..]);
    }
  }

  lemma {:induction false} StringLessTransitive(a: string, b: string, c: string)
    requires StringLess(a, b) && StringLess(b, c)
    ensures StringLess(a, c)
  {
    if |a| > 0 && a[0] == b[0] == c[0] {
      StringLessTransitive(a[1..], b[1..], c[1..]);
    }
  }

  lemma {:induction false} StringLessTotal(a: string, b: string)
    ensures a == b || StringLess(a, b) || StringLess(b, a)
  {
    if |a| > 0 && |b| > 0 && a[0] == b[0] {
      StringLessTotal(a[1..], b[1..]);
      assert a == [a[0]] + a[1..] && b == [b[0]] + b[1..];
    }
  }

  /** `operator<` is a strict total order, so its third case (neither less nor greater) is equality. */
  lemma LessIsStrictTotalOrder()
    ensures forall a: Value :: !Less(a, a)
    ensures forall a, b, c {:trigger Less(a, b), Less(b, c)} :: Less(a, b) && Less(b, c) ==> Less(a, c)
    ensures forall a, b {:trigger Less(a, b)} {:trigger Less(b, a)} :: a == b || Less(a, b) || Less(b, a)
  {
    forall a: Value ensures !Less(a, a) {
      StringLessIrreflexive(a.member);
    }
    forall a, b, c | Less(a, b) && Less(b, c) ensures Less(a, c) {
      if a.score == b.score == c.score {
        StringLessTransitive(a.member, b.member, c.member);
      }
    }
    forall a: Value, b: Value ensures a == b || Less(a, b) || Less(b, a) {
      StringLessTotal(a.member, b.member);
    }
  }
}
