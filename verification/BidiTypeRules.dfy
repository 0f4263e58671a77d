/** The final types told by rules W1 to W6 of UAX #9 (section 3.3.4) as statements over positions, with the engine's
    reading of them: numbers are classed by the last strong letter anywhere before them, terminators and separators
    are recognised by their raw class. */
module BidiTypeRules {
  import opened BidiTables
  import opened BidiTypes
  import BidiMachine

  /** The last of B, L, R and AL before i is an AL. */
  ghost predicate AfterArabicLetter(e: seq<int>, i: int)
    requires 0 <= i <= |e|
  {
    exists a :: 0 <= a < i && e[a] == AL && forall m :: a < m < i ==> e[m] !in {B, L, R, AL}
  }

  ghost predicate EuropeanNumber(e: seq<int>, i: int)
    requires 0 <= i < |e|
  {
    e[i] == EN && !AfterArabicLetter(e, i)
  }

  ghost predicate ArabicNumber(e: seq<int>, i: int)
    requires 0 <= i < |e|
  {
    e[i] == AN || (e[i] == EN && AfterArabicLetter(e, i))
  }

  /** Only terminators (and, in the first phase, marks) stand between i and a European number before it. */
  ghost predicate FollowsNumber(e: seq<int>, i: int, second: bool)
    requires 0 <= i < |e|
  {
    exists a :: 0 <= a < i && EuropeanNumber(e, a) &&
                forall m :: a < m < i ==> e[m] == ET || (e[m] == NSM && !second)
  }

  /** Only terminators stand between i and a European number after it. */
  ghost predicate PrecedesNumber(e: seq<int>, k: seq<int>, i: int)
    requires 0 <= i < |e| == |k|
  {
    exists a :: i < a < |e| && EuropeanNumber(e, a) && forall m :: i < m < a ==> k[m] == ET
  }

  /** The nearest character up to i that is no mark is an Arabic number. */
  ghost predicate ArabicNumberUpTo(e: seq<int>, i: int)
    requires 0 <= i < |e|
  {
    exists a :: 0 <= a <= i && ArabicNumber(e, a) && forall m :: a < m <= i ==> e[m] == NSM
  }

  /** A terminator before a European number, or a single separator between two digits of which the second is in a
      European number. */
  ghost predicate JoinsEuropean(e: seq<int>, k: seq<int>, i: int)
    requires 0 <= i < |e| == |k|
  {
    || (k[i] == ET && PrecedesNumber(e, k, i))
    || (k[i] in {ES, CS} && 0 < i && i + 1 < |e| && k[i - 1] == EN && EuropeanNumber(e, i + 1))
  }

  /** A single common separator between two digits of which the second is in an Arabic number: European digits, or
      an Arabic digit after an Arabic number. */
  ghost predicate JoinsArabic(e: seq<int>, k: seq<int>, i: int, second: bool)
    requires 0 <= i < |e| == |k|
  {
    && k[i] == CS && 0 < i && i + 1 < |e|
    && (|| (k[i - 1] == EN && e[i + 1] == EN && AfterArabicLetter(e, i + 1))
        || (e[i + 1] == AN && if second then k[i - 1] == AN else ArabicNumberUpTo(e, i - 1)))
  }

  /** The type of a character that joins no number after it. */
  ghost predicate TypedAlone(e: seq<int>, i: int, t: int, second: bool)
    requires 0 <= i < |e|
  {
    && (e[i] == L ==> t == L)
    && (e[i] == R || e[i] == AL ==> t == R)
    && (e[i] in {B, S, W, AN} ==> t == e[i])
    && (e[i] == EN ==> t == if AfterArabicLetter(e, i) then AN else EN)
    && (e[i] == ET ==> t == if FollowsNumber(e, i, second) then EN else N)
    && (e[i] !in {B, S, L, R, AL, EN, AN, W, ET, NSM} ==> t == N)
    && (e[i] == NSM && second ==> t == N)
  }

  /** A mark takes the type of the character it stands on; at the start of the text it is neutral. */
  ghost predicate TypedAsMark(e: seq<int>, i: int, t: int)
    requires 0 <= i < |e|
  {
    && (forall b :: 0 <= b < i && e[b] != NSM && (forall m :: b < m <= i ==> e[m] == NSM) ==>
          TypedAlone(e, b, t, false))
    && ((forall m :: 0 <= m <= i ==> e[m] == NSM) ==> t == N)
  }

  ghost predicate TypedByRules(e: seq<int>, k: seq<int>, i: int, t: int, second: bool)
    requires 0 <= i < |e| == |k|
  {
    && (JoinsEuropean(e, k, i) ==> t == EN)
    && (JoinsArabic(e, k, i, second) ==> t == AN)
    && (!JoinsEuropean(e, k, i) && !JoinsArabic(e, k, i, second) ==>
          if e[i] == NSM && !second then TypedAsMark(e, i, t) else TypedAlone(e, i, t, second))
  }

  // ------------------------------------------------------------------ the look-ahead types obey the rules

  lemma {:induction false} ArabicMeans(e: seq<int>, i: nat)
    requires i <= |e|
    ensures Arabic(e, i) <==> AfterArabicLetter(e, i)
  {
    if i > 0 {
      ArabicMeans(e, i - 1);
      if e[i - 1] == AL {
        assert AfterArabicLetter(e, i);
      } else if AfterArabicLetter(e, i) {
        var a :| 0 <= a < i && e[a] == AL && forall m :: a < m < i ==> e[m] !in {B, L, R, AL};
        assert e[i - 1] !in {B, L, R, AL};
        assert AfterArabicLetter(e, i - 1);
      }
    }
  }

  /** A number at or before i reaches i through terminators and, in the first phase, marks. */
  ghost predicate NumberReaches(e: seq<int>, i: int, second: bool)
    requires 0 <= i < |e|
  {
    EuropeanNumber(e, i) || ((e[i] == ET || (e[i] == NSM && !second)) && FollowsNumber(e, i, second))
  }

  lemma {:induction false} OwnEuropean(e: seq<int>, i: nat, second: bool)
    requires i < |e|
    ensures Own(e, i, second) == EN <==> NumberReaches(e, i, second)
  {
    hide AfterArabicLetter;
    ArabicMeans(e, i);
    hide Arabic;
    if i > 0 && (e[i] == ET || (e[i] == NSM && !second)) {
      OwnEuropean(e, i - 1, second);
      ReachesNext(e, i, second);
    }
  }

  lemma ReachesNext(e: seq<int>, i: nat, second: bool)
    requires 0 < i < |e|
    ensures FollowsNumber(e, i, second) <==> NumberReaches(e, i - 1, second)
  {
    hide AfterArabicLetter;
    if FollowsNumber(e, i, second) {
      var a :| 0 <= a < i && EuropeanNumber(e, a) && forall m :: a < m < i ==> e[m] == ET || (e[m] == NSM && !second);
      if a < i - 1 {
        assert e[i - 1] == ET || (e[i - 1] == NSM && !second);
        assert FollowsNumber(e, i - 1, second);
      }
    }
    if NumberReaches(e, i - 1, second) {
      if EuropeanNumber(e, i - 1) {
        assert FollowsNumber(e, i, second);
      } else {
        var a :| 0 <= a < i - 1 && EuropeanNumber(e, a) &&
                 forall m :: a < m < i - 1 ==> e[m] == ET || (e[m] == NSM && !second);
        assert FollowsNumber(e, i, second);
      }
    }
  }

  lemma {:induction false} OwnArabic(e: seq<int>, i: nat)
    requires i < |e|
    ensures Own(e, i, false) == AN <==> ArabicNumberUpTo(e, i)
  {
    hide AfterArabicLetter;
    ArabicMeans(e, i);
    hide Arabic;
    if ArabicNumber(e, i) {
      assert ArabicNumberUpTo(e, i);
    } else if e[i] == NSM && i > 0 {
      OwnArabic(e, i - 1);
      if ArabicNumberUpTo(e, i) {
        var a :| 0 <= a <= i && ArabicNumber(e, a) && forall m :: a < m <= i ==> e[m] == NSM;
        assert ArabicNumberUpTo(e, i - 1);
      }
      if ArabicNumberUpTo(e, i - 1) {
        var a :| 0 <= a <= i - 1 && ArabicNumber(e, a) && forall m :: a < m <= i - 1 ==> e[m] == NSM;
        assert ArabicNumberUpTo(e, i);
      }
    } else if ArabicNumberUpTo(e, i) {
      assert false;
    }
  }

  lemma OwnAlone(e: seq<int>, i: nat, second: bool)
    requires i < |e| && (e[i] != NSM || second)
    ensures TypedAlone(e, i, Own(e, i, second), second)
  {
    ArabicMeans(e, i);
    if e[i] == ET {
      OwnEuropean(e, i, second);
    }
    hide Arabic, AfterArabicLetter, FollowsNumber, EuropeanNumber;
    assert e[i] == ET ==> Own(e, i, second) in {EN, N};
  }

  lemma {:induction false} OwnOfMark(e: seq<int>, b: nat, i: nat)
    requires b <= i < |e| && forall m :: b < m <= i ==> e[m] == NSM
    ensures Own(e, i, false) == Own(e, b, false)
  {
    if b < i {
      OwnOfMark(e, b, i - 1);
    }
  }

  lemma OwnAsMark(e: seq<int>, i: nat)
    requires i < |e| && e[i] == NSM
    ensures TypedAsMark(e, i, Own(e, i, false))
  {
    hide TypedAlone;
    forall b | 0 <= b < i && e[b] != NSM && (forall m :: b < m <= i ==> e[m] == NSM)
      ensures TypedAlone(e, b, Own(e, i, false), false)
    {
      OwnOfMark(e, b, i);
      OwnAlone(e, b, false);
    }
    if forall m :: 0 <= m <= i ==> e[m] == NSM {
      OwnOfMark(e, 0, i);
    }
  }

  lemma NextNumber(e: seq<int>, k: seq<int>, i: nat)
    requires i < |e| == |k| && forall m :: 0 <= m < |e| ==> e[m] == k[m] || e[m] == B
    ensures var a := AfterTerminators(k, i);
            PrecedesNumber(e, k, i) <==> a < |e| && EuropeanNumber(e, a)
  {
    hide AfterArabicLetter;
    var a := AfterTerminators(k, i);
    if PrecedesNumber(e, k, i) {
      var b :| i < b < |e| && EuropeanNumber(e, b) && forall m :: i < m < b ==> k[m] == ET;
      assert k[b] == EN;
      assert a == b;
    }
  }

  lemma FinalByRules(e: seq<int>, k: seq<int>, i: nat, second: bool)
    requires i < |e| == |k| && forall m :: 0 <= m < |e| ==> e[m] == k[m] || e[m] == B
    ensures TypedByRules(e, k, i, FinalTo(e, k, i, |k|, second), second)
  {
    NextNumber(e, k, i);
    var a := AfterTerminators(k, i);
    if a < |e| {
      ArabicMeans(e, a);
    }
    if i + 1 < |e| {
      ArabicMeans(e, i + 1);
    }
    if i > 0 {
      OwnArabic(e, i - 1);
    }
    if e[i] == NSM && !second {
      OwnAsMark(e, i);
    } else {
      OwnAlone(e, i, second);
    }
    hide Arabic, AfterArabicLetter, AfterTerminators, PrecedesNumber, TypedAlone, TypedAsMark, Own, ArabicNumberUpTo;
  }

  // ------------------------------------------------------------------ the types of the two phases

  /** The types of the first phase obey the rules; visual text stays neutral. */
  lemma FirstTypesByRules(buffer: seq<int>, cls: int -> int, d1: int, d2: int)
    ensures var k := BidiMachine.RawClasses(buffer, cls);
            var t := BidiMachine.FirstTypes(buffer, cls, d1, d2, false);
            forall i :: 0 <= i < |buffer| ==> TypedByRules(EffectiveClasses(buffer, k, d1, d2), k, i, t[i], false)
    ensures forall i :: 0 <= i < |buffer| ==> BidiMachine.FirstTypes(buffer, cls, d1, d2, true)[i] == N
  {
    var k := BidiMachine.RawClasses(buffer, cls);
    var e := EffectiveClasses(buffer, k, d1, d2);
    hide TypedByRules, FinalTo, EffectiveClass;
    forall i | 0 <= i < |buffer|
      ensures TypedByRules(e, k, i, BidiMachine.FirstTypes(buffer, cls, d1, d2, false)[i], false)
    {
      FinalByRules(e, k, i, false);
    }
  }

  /** Rules W1 to W6 where all classes are raw. */
  ghost predicate WeakRule(k: seq<int>, i: int, t: int)
    requires 0 <= i < |k|
  {
    && (k[i] == L ==> t == L)
    && (k[i] == R || k[i] == AL ==> t == R)
    && (k[i] in {B, S, W, AN} ==> t == k[i])
    && (k[i] == EN ==> t == if AfterArabicLetter(k, i) then AN else EN)
    && (k[i] == ET ==> t == if FollowsNumber(k, i, false) || PrecedesNumber(k, k, i) then EN else N)
    && (k[i] == ES ==> t == if 0 < i < |k| - 1 && k[i - 1] == EN && EuropeanNumber(k, i + 1) then EN else N)
    && (k[i] == CS ==>
          t == if 0 < i < |k| - 1 && k[i - 1] == EN && EuropeanNumber(k, i + 1) then EN
               else if 0 < i < |k| - 1 && k[i - 1] == EN && k[i + 1] == EN then AN
               else if 0 < i < |k| - 1 && ArabicNumberUpTo(k, i - 1) && k[i + 1] == AN then AN
               else N)
    && (k[i] == NSM ==>
          forall b :: 0 <= b < i && k[b] != NSM && (forall m :: b < m <= i ==> k[m] == NSM) ==>
            TypedAlone(k, b, t, false))
    && (k[i] == NSM && (forall m :: 0 <= m <= i ==> k[m] == NSM) ==> t == N)
    && (k[i] !in {B, S, L, R, AL, EN, AN, W, ET, ES, CS, NSM} ==> t == N)
  }

  lemma WeakByRules(k: seq<int>, i: nat, t: int)
    requires i < |k| && TypedByRules(k, k, i, t, false)
    ensures WeakRule(k, i, t)
  {
    hide AfterArabicLetter, FollowsNumber, PrecedesNumber, ArabicNumberUpTo;
  }

  /** Text without delimiters: the types are those of rules W1 to W6. */
  lemma WeakRules(buffer: seq<int>, cls: int -> int, d2: int)
    ensures var k := BidiMachine.RawClasses(buffer, cls);
            var t := BidiMachine.FirstTypes(buffer, cls, NO_DELIM, d2, false);
            forall i :: 0 <= i < |buffer| ==> WeakRule(k, i, t[i])
  {
    var k := BidiMachine.RawClasses(buffer, cls);
    var t := BidiMachine.FirstTypes(buffer, cls, NO_DELIM, d2, false);
    FirstTypesByRules(buffer, cls, NO_DELIM, d2);
    assert EffectiveClasses(buffer, k, NO_DELIM, d2) == k;
    hide BidiMachine.FirstTypes, EffectiveClasses, TypedByRules, WeakRule;
    forall i | 0 <= i < |buffer| ensures WeakRule(k, i, t[i]) {
      WeakByRules(k, i, t[i]);
    }
  }

  /** The types of the second phase obey the rules in display order, where marks stay neutral and an Arabic digit
      joins a separator only after an Arabic digit. */
  lemma SecondTypesByRules(k: seq<int>, t1: seq<int>, d1: int)
    requires |k| == |t1|
    ensures var e := BidiMachine.SecondClasses(k, t1, d1);
            && (forall i :: 0 <= i < |k| ==>
                  TypedByRules(e, k, i, BidiMachine.SecondTypes(k, t1, d1)[i], true))
            && (forall i :: 0 <= i < |k| ==> e[i] == if d1 != NO_DELIM && t1[i] == B then B else k[i])
  {
    var e := BidiMachine.SecondClasses(k, t1, d1);
    hide TypedByRules, FinalTo;
    forall i | 0 <= i < |k| ensures TypedByRules(e, k, i, BidiMachine.SecondTypes(k, t1, d1)[i], true) {
      FinalByRules(e, k, i, true);
    }
  }
}
