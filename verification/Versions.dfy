// RAUC's relaxed semantic versions: MAJOR[.MINOR[.PATCH]][-PRERELEASE][+BUILD], parsed by a regular
// expression and ordered by a tuple key.
module Versions {
  import opened Basics

  // --- lexicographic order, as Python compares tuples and strings ---

  predicate Lex<T(==)>(less: (T, T) -> bool, a: seq<T>, b: seq<T>) {
    if b == [] then false
    else if a == [] then true
    else less(a[0], b[0]) || (a[0] == b[0] && Lex(less, a[1..], b[1..]))
  }

  ghost predicate StrictTotal<T(!new)>(less: (T, T) -> bool) {
    && (forall x :: !less(x, x))
    && (forall x, y :: less(x, y) || x == y || less(y, x))
    && (forall x, y, z :: less(x, y) && less(y, z) ==> less(x, z))
  }

  lemma {:induction false} LexIrreflexive<T(!new)>(less: (T, T) -> bool, a: seq<T>)
    requires StrictTotal(less)
    ensures !Lex(less, a, a)
  {
    if a == [] {
    } else {
      LexIrreflexive(less, a[1..]);
    }
  }

  lemma {:induction false} LexTotal<T(!new)>(less: (T, T) -> bool, a: seq<T>, b: seq<T>)
    requires StrictTotal(less)
    ensures Lex(less, a, b) || a == b || Lex(less, b, a)
  {
    if a != [] && b != [] && a[0] == b[0] {
      LexTotal(less, a[1..], b[1..]);
      assert a == [a[0]] + a[1..] && b == [b[0]] + b[1..];
    }
  }

  lemma {:induction false} LexTransitive<T(!new)>(less: (T, T) -> bool, a: seq<T>, b: seq<T>, c: seq<T>)
    requires StrictTotal(less) && Lex(less, a, b) && Lex(less, b, c)
    ensures Lex(less, a, c)
  {
    if a != [] && a[0] == b[0] == c[0] {
      LexTransitive(less, a[1..], b[1..], c[1..]);
    }
  }

  // The reference: equal up to some position, and there one ends or is less.
  ghost predicate FirstDifference<T(!new)>(less: (T, T) -> bool, a: seq<T>, b: seq<T>, i: nat) {
    && i <= |a| && i < |b|
    && a[..i] == b[..i]
    && (i == |a| || less(a[i], b[i]))
  }

  lemma {:induction false} LexIsFirstDifference<T(!new)>(less: (T, T) -> bool, a: seq<T>, b: seq<T>)
    requires StrictTotal(less)
    ensures Lex(less, a, b) <==> exists i: nat :: FirstDifference(less, a, b, i)
  {
    if a == [] || b == [] {
      assert b != [] ==> FirstDifference(less, a, b, 0);
    } else {
      var a', b' := a[1..], b[1..];
      LexIsFirstDifference(less, a', b');
      if Lex(less, a, b) {
        if less(a[0], b[0]) {
          assert FirstDifference(less, a, b, 0);
        } else {
          var i: nat :| FirstDifference(less, a', b', i);
          assert a[..i + 1] == [a[0]] + a'[..i] && b[..i + 1] == [b[0]] + b'[..i];
          assert FirstDifference(less, a, b, i + 1);
        }
      } else if i: nat :| FirstDifference(less, a, b, i) {
        assert i > 0;
        assert a[0] == a[..i][0] == b[..i][0] == b[0];
        assert a'[..i - 1] == a[..i][1..] && b'[..i - 1] == b[..i][1..];
        assert FirstDifference(less, a', b', i - 1);
      }
    }
  }

  // --- the text of a version ---

  predicate IsDigit(c: char) {
    '0' <= c <= '9'
  }

  predicate IsFieldChar(c: char) {
    IsDigit(c) || 'A' <= c <= 'Z' || 'a' <= c <= 'z' || c == '.'
  }

  predicate All(s: string, p: char -> bool) {
    forall i :: 0 <= i < |s| ==> p(s[i])
  }

  datatype Text = Text(major: string, minor: Option<string>, patch: Option<string>,
                       pre: Option<string>, build: Option<string>)

  // What the regular expression's groups can hold; MINOR is matched before PATCH.
  predicate WellFormed(t: Text) {
    && t.major != [] && All(t.major, IsDigit)
    && (t.minor.Some? ==> t.minor.value != [] && All(t.minor.value, IsDigit))
    && (t.patch.Some? ==> t.minor.Some? && t.patch.value != [] && All(t.patch.value, IsDigit))
    && (t.pre.Some? ==> t.pre.value != [] && All(t.pre.value, IsFieldChar))
    && (t.build.Some? ==> t.build.value != [] && All(t.build.value, IsFieldChar))
  }

  function Marked(mark: char, part: Option<string>): string {
    match part case None => "" case Some(s) => [mark] + s
  }

  function Print(t: Text): string {
    t.major + (Marked('.', t.minor) + (Marked('.', t.patch) + (Marked('-', t.pre) + Marked('+', t.build))))
  }

  // The longest prefix of characters in the class.
  function Run(s: string, p: char -> bool): (n: nat)
    ensures n <= |s| && All(s[..n], p) && (n < |s| ==> !p(s[n]))
  {
    if s == [] || !p(s[0]) then 0
    else
      var n := Run(s[1..], p);
      assert s[..n + 1] == [s[0]] + s[1..][..n];
      n + 1
  }

  datatype Piece = Piece(text: Option<string>, rest: string)

  // An optional group: the mark and at least one character of the class, or nothing.
  function Group(s: string, mark: char, p: char -> bool): Piece {
    if s != [] && s[0] == mark && Run(s[1..], p) > 0 then
      var n := Run(s[1..], p);
      Piece(Some(s[1..][..n]), s[1..][n..])
    else Piece(None, s)
  }

  // SEMVER_RE.fullmatch.
  function Match(s: string): Option<Text> {
    var n := Run(s, IsDigit);
    if n == 0 then None
    else
      var minor := Group(s[n..], '.', IsDigit);
      var patch := Group(minor.rest, '.', IsDigit);
      var pre := Group(patch.rest, '-', IsFieldChar);
      var build := Group(pre.rest, '+', IsFieldChar);
      if build.rest == [] then Some(Text(s[..n], minor.text, patch.text, pre.text, build.text)) else None
  }

  lemma RunOf(s: string, rest: string, p: char -> bool)
    requires All(s, p) && (rest == [] || !p(rest[0]))
    ensures Run(s + rest, p) == |s|
    decreases s
  {
    if s != [] {
      assert (s + rest)[1..] == s[1..] + rest;
      RunOf(s[1..], rest, p);
    } else {
      assert s + rest == rest;
    }
  }

  lemma GroupOf(part: Option<string>, rest: string, mark: char, p: char -> bool)
    requires part.Some? ==> part.value != [] && All(part.value, p)
    requires rest == [] || !p(rest[0])
    requires part.None? ==> rest == [] || rest[0] != mark
    ensures Group(Marked(mark, part) + rest, mark, p) == Piece(part, rest)
  {
    match part
    case None => assert Marked(mark, part) + rest == rest;
    case Some(text) =>
      var s := [mark] + text + rest;
      assert Marked(mark, part) + rest == s;
      assert s[1..] == text + rest;
      RunOf(text, rest, p);
      assert (text + rest)[..|text|] == text && (text + rest)[|text|..] == rest;
  }

  lemma GroupTakes(s: string, mark: char, p: char -> bool)
    ensures var piece := Group(s, mark, p);
            && s == Marked(mark, piece.text) + piece.rest
            && (piece.rest == [] ==> s == Marked(mark, piece.text))
            && (piece.text.Some? ==> piece.text.value != [] && All(piece.text.value, p))
  {
    var piece := Group(s, mark, p);
    assert piece.rest == [] ==> Marked(mark, piece.text) + piece.rest == Marked(mark, piece.text);
  }

  // Matching is the inverse of printing, in both directions: the expression accepts exactly the
  // printed well-formed texts, and gives their parts back.
  lemma MatchInvertsPrint(t: Text)
    requires WellFormed(t)
    ensures Match(Print(t)) == Some(t)
  {
    var r4 := Marked('+', t.build);
    var r3 := Marked('-', t.pre) + r4;
    var r2 := Marked('.', t.patch) + r3;
    var r1 := Marked('.', t.minor) + r2;
    assert r4 + [] == r4;
    GroupOf(t.build, [], '+', IsFieldChar);
    GroupOf(t.pre, r4, '-', IsFieldChar);
    GroupOf(t.patch, r3, '.', IsDigit);
    GroupOf(t.minor, r2, '.', IsDigit);
    RunOf(t.major, r1, IsDigit);
    assert Print(t)[..|t.major|] == t.major && Print(t)[|t.major|..] == r1;
  }

  lemma MatchAcceptsOnlyPrinted(s: string)
    requires Match(s).Some?
    ensures WellFormed(Match(s).value) && Print(Match(s).value) == s
  {
    var n := Run(s, IsDigit);
    var minor := Group(s[n..], '.', IsDigit);
    var patch := Group(minor.rest, '.', IsDigit);
    var pre := Group(patch.rest, '-', IsFieldChar);
    var build := Group(pre.rest, '+', IsFieldChar);
    GroupTakes(pre.rest, '+', IsFieldChar);
    assert pre.rest == Marked('+', build.text);
    GroupTakes(patch.rest, '-', IsFieldChar);
    assert patch.rest == Marked('-', pre.text) + pre.rest;
    GroupTakes(minor.rest, '.', IsDigit);
    assert minor.rest == Marked('.', patch.text) + patch.rest;
    GroupTakes(s[n..], '.', IsDigit);
    assert s[n..] == Marked('.', minor.text) + minor.rest;
    if minor.text.None? { NoSkippedMinor(s[n..]); }
    assert Match(s).value == Text(s[..n], minor.text, patch.text, pre.text, build.text);
    SplitAt(s, n);
  }

  lemma SplitAt(s: string, n: nat)
    requires n <= |s|
    ensures s == s[..n] + s[n..]
  {
  }

  // A PATCH is matched only after a MINOR.
  lemma NoSkippedMinor(s: string)
    requires Group(s, '.', IsDigit).text.None?
    ensures Group(Group(s, '.', IsDigit).rest, '.', IsDigit).text.None?
  {
  }

  // --- numbers and the key ---

  function ToNat(digits: string): nat
    requires All(digits, IsDigit)
  {
    if digits == [] then 0
    else ToNat(digits[..|digits| - 1]) * 10 + (digits[|digits| - 1] as int - '0' as int)
  }

  function Decimal(n: nat): (s: string)
    ensures s != [] && All(s, IsDigit)
  {
    var last := ['0' + (n % 10) as char];
    if n < 10 then last else Decimal(n / 10) + last
  }

  lemma {:induction false} DecimalReadsBack(n: nat)
    ensures ToNat(Decimal(n)) == n
  {
    var s := Decimal(n);
    if n >= 10 {
      DecimalReadsBack(n / 10);
      assert s[..|s| - 1] == Decimal(n / 10);
    } else {
      assert s[..|s| - 1] == [];
    }
  }

  datatype Version = Version(core: seq<nat>, pre: Option<string>)

  function NumberOr0(part: Option<string>): nat
    requires part.Some? ==> All(part.value, IsDigit)
  {
    match part case None => 0 case Some(s) => ToNat(s)
  }

  // parse_version: None is its ValueError.
  function ParseVersion(v: string): (r: Option<Version>)
    ensures r.Some? ==> |r.value.core| == 3
  {
    match Match(v)
    case None => None
    case Some(t) =>
      MatchAcceptsOnlyPrinted(v);
      Some(Version([ToNat(t.major), NumberOr0(t.minor), NumberOr0(t.patch)], t.pre))
  }

  function Printed(major: nat, minor: Option<nat>, patch: Option<nat>, pre: Option<string>, build: Option<string>): Text
  {
    Text(Decimal(major),
         match minor case None => None case Some(n) => Some(Decimal(n)),
         match patch case None => None case Some(n) => Some(Decimal(n)),
         pre, build)
  }

  // Parsing a printed version gives back its numbers and pre-release, whatever the build part.
  lemma ParsePrinted(major: nat, minor: Option<nat>, patch: Option<nat>, pre: Option<string>, build: Option<string>)
    requires WellFormed(Printed(major, minor, patch, pre, build))
    ensures ParseVersion(Print(Printed(major, minor, patch, pre, build)))
            == Some(Version([major, match minor case None => 0 case Some(n) => n,
                             match patch case None => 0 case Some(n) => n], pre))
  {
    MatchInvertsPrint(Printed(major, minor, patch, pre, build));
    DecimalReadsBack(major);
    if minor.Some? { DecimalReadsBack(minor.value); }
    if patch.Some? { DecimalReadsBack(patch.value); }
  }

  datatype Field = Number(n: nat) | Word(s: string)

  datatype Key = Key(core: seq<nat>, pre: Option<seq<Field>>)

  // str.split(".")
  function Split(s: string): seq<string> {
    var n := Run(s, c => c != '.');
    if n == |s| then [s] else [s[..n]] + Split(s[n + 1..])
  }

  function FieldOf(f: string): Field {
    if f != [] && All(f, IsDigit) then Number(ToNat(f)) else Word(f)
  }

  function FieldsOf(parts: seq<string>): seq<Field> {
    seq(|parts|, i requires 0 <= i < |parts| => FieldOf(parts[i]))
  }

  function VersionKey(v: Version): Key {
    Key(v.core, match v.pre case None => None case Some(p) => Some(FieldsOf(Split(p))))
  }

  predicate NatLess(a: nat, b: nat) {
    a < b
  }

  predicate CharLess(a: char, b: char) {
    a < b
  }

  // (0, number, "") against (1, 0, word).
  predicate FieldLess(a: Field, b: Field) {
    match (a, b)
    case (Number(m), Number(n)) => m < n
    case (Number(_), Word(_)) => true
    case (Word(_), Number(_)) => false
    case (Word(s), Word(t)) => Lex(CharLess, s, t)
  }

  // core + ((1,),) against core + ((0, fields),), compared as tuples.
  predicate KeyLess(a: Key, b: Key) {
    Lex(NatLess, a.core, b.core)
    || (a.core == b.core && a.pre.Some?
        && (b.pre.None? || Lex(FieldLess, a.pre.value, b.pre.value)))
  }

  // newer(a, b); None is its ValueError.
  function Newer(a: string, b: string): Option<bool> {
    match (ParseVersion(a), ParseVersion(b))
    case (Some(va), Some(vb)) => Some(KeyLess(VersionKey(vb), VersionKey(va)))
    case _ => None
  }

  lemma CharsAreOrdered()
    ensures StrictTotal(CharLess) && StrictTotal(NatLess)
  {
  }

  lemma FieldsAreOrdered()
    ensures StrictTotal(FieldLess)
  {
    CharsAreOrdered();
    forall x ensures !FieldLess(x, x) {
      if x.Word? { LexIrreflexive(CharLess, x.s); }
    }
    forall x, y ensures FieldLess(x, y) || x == y || FieldLess(y, x) {
      if x.Word? && y.Word? { LexTotal(CharLess, x.s, y.s); }
    }
    forall x, y, z | FieldLess(x, y) && FieldLess(y, z) ensures FieldLess(x, z) {
      if x.Word? && y.Word? && z.Word? { LexTransitive(CharLess, x.s, y.s, z.s); }
    }
  }

  // newer is a strict weak order on every accepted version string, whose ties are exactly the
  // strings with the same numbers and the same pre-release key.
  lemma NewerIsStrictWeakOrder(a: string, b: string, c: string)
    requires ParseVersion(a).Some? && ParseVersion(b).Some? && ParseVersion(c).Some?
    ensures Newer(a, a) == Some(false)
    ensures Newer(a, b) == Some(true) ==> Newer(b, a) == Some(false)
    ensures Newer(a, b) == Some(true) && Newer(b, c) == Some(true) ==> Newer(a, c) == Some(true)
    ensures Newer(a, b) == Some(false) && Newer(b, a) == Some(false) <==>
            VersionKey(ParseVersion(a).value) == VersionKey(ParseVersion(b).value)
  {
    var ka, kb, kc := VersionKey(ParseVersion(a).value), VersionKey(ParseVersion(b).value),
                      VersionKey(ParseVersion(c).value);
    KeysAreOrdered(ka, kb, kc);
    KeysAreOrdered(kb, ka, kb);
    KeysAreOrdered(kc, kb, ka);
    KeysAreOrdered(ka, kb, ka);
  }

  lemma KeysAreOrdered(a: Key, b: Key, c: Key)
    ensures !KeyLess(a, a)
    ensures KeyLess(a, b) || a == b || KeyLess(b, a)
    ensures KeyLess(a, b) && KeyLess(b, c) ==> KeyLess(a, c)
  {
    CharsAreOrdered();
    FieldsAreOrdered();
    LexIrreflexive(NatLess, a.core);
    LexTotal(NatLess, a.core, b.core);
    if Lex(NatLess, a.core, b.core) && Lex(NatLess, b.core, c.core) {
      LexTransitive(NatLess, a.core, b.core, c.core);
    }
    if a.pre.Some? {
      LexIrreflexive(FieldLess, a.pre.value);
      if b.pre.Some? {
        LexTotal(FieldLess, a.pre.value, b.pre.value);
        if c.pre.Some? && Lex(FieldLess, a.pre.value, b.pre.value) && Lex(FieldLess, b.pre.value, c.pre.value) {
          LexTransitive(FieldLess, a.pre.value, b.pre.value, c.pre.value);
        }
      }
    }
  }

  // The build part never matters.
  lemma BuildIsIgnored(t: Text, build: Option<string>, other: string)
    requires WellFormed(t) && WellFormed(t.(build := build))
    ensures Newer(Print(t), other) == Newer(Print(t.(build := build)), other)
    ensures Newer(other, Print(t)) == Newer(other, Print(t.(build := build)))
  {
    MatchInvertsPrint(t);
    MatchInvertsPrint(t.(build := build));
  }

  // --- section 11 of Semantic Versioning 2.0.0 ---

  // 11.4.1-3: numerically, in ASCII order, numeric below alphanumeric.
  ghost predicate IdentifierPrecedes(a: Field, b: Field) {
    match (a, b)
    case (Number(m), Number(n)) => m < n
    case (Number(_), Word(_)) => true
    case (Word(_), Number(_)) => false
    case (Word(s), Word(t)) => exists i: nat :: FirstDifference(CharLess, s, t, i)
  }

  // 11.2 the first different number decides; 11.3 a pre-release is below its release; 11.4 the first
  // different identifier decides, or the longer list.
  ghost predicate Precedes(a: Key, b: Key) {
    if a.core != b.core then exists i: nat :: FirstDifference(NatLess, a.core, b.core, i)
    else match (a.pre, b.pre)
      case (None, _) => false
      case (Some(_), None) => true
      case (Some(p), Some(q)) =>
        exists i: nat :: FirstDifferentIdentifier(p, q, i)
  }

  ghost predicate FirstDifferentIdentifier(p: seq<Field>, q: seq<Field>, i: nat) {
    i <= |p| && i < |q| && p[..i] == q[..i] && (i == |p| || IdentifierPrecedes(p[i], q[i]))
  }

  lemma IdentifiersAgree(a: Field, b: Field)
    ensures FieldLess(a, b) <==> IdentifierPrecedes(a, b)
  {
    CharsAreOrdered();
    if a.Word? && b.Word? {
      LexIsFirstDifference(CharLess, a.s, b.s);
    }
  }

  lemma PreReleasesAgree(p: seq<Field>, q: seq<Field>)
    ensures Lex(FieldLess, p, q) <==> exists i: nat :: FirstDifferentIdentifier(p, q, i)
  {
    FieldsAreOrdered();
    LexIsFirstDifference(FieldLess, p, q);
    if i: nat :| FirstDifference(FieldLess, p, q, i) {
      if i < |p| { IdentifiersAgree(p[i], q[i]); }
      assert FirstDifferentIdentifier(p, q, i);
    }
    if i: nat :| FirstDifferentIdentifier(p, q, i) {
      if i < |p| { IdentifiersAgree(p[i], q[i]); }
      assert FirstDifference(FieldLess, p, q, i);
    }
  }

  lemma KeysAgree(x: Key, y: Key)
    ensures KeyLess(x, y) <==> Precedes(x, y)
  {
    CharsAreOrdered();
    LexIsFirstDifference(NatLess, x.core, y.core);
    LexIrreflexive(NatLess, x.core);
    if x.pre.Some? && y.pre.Some? {
      PreReleasesAgree(x.pre.value, y.pre.value);
    }
  }

  // newer is the precedence of section 11, a missing MINOR or PATCH counting as 0.
  lemma AgreesWithSemver(a: string, b: string)
    requires ParseVersion(a).Some? && ParseVersion(b).Some?
    ensures Newer(a, b) == Some(true) <==>
            Precedes(VersionKey(ParseVersion(b).value), VersionKey(ParseVersion(a).value))
  {
    KeysAgree(VersionKey(ParseVersion(b).value), VersionKey(ParseVersion(a).value));
  }
}
