/**
 * The address pattern the validator applies to notification emails:
 *
 *   local "@" domain, matched against the whole string, case-insensitively,
 *   local  = atom ("." atom)*  |  '"' any+ '"'
 *   domain = (label ".")+ label2
 *
 * where an atom or a label is a non-empty run of characters outside
 * `< > ( ) [ ] . , ; : @ "` and whitespace, `any` is a character other than a
 * line terminator, and the final label `label2` has at least two characters.
 * The pattern has no `u` flag, so it counts UTF-16 code units: a character
 * outside the Basic Multilingual Plane is two of them, each matched by a negated
 * class on its own, and counts twice towards `{2,}`.
 * None of the classes mentions a letter, so case-insensitivity changes nothing.
 * The predicates below follow the shape of the pattern; the lemmas restate each
 * part position by position.
 */
module Email {
  import opened Text

  /** A character of the class `[^<>()\[\]\.,;:\s@\"]`. */
  predicate AtomChar(c: char) {
    && c != '<' && c != '>' && c != '(' && c != ')' && c != '[' && c != ']'
    && c != '.' && c != ',' && c != ';' && c != ':' && c != '@' && c != '"'
    && !IsWhitespace(c)
  }

  /** `atom ("." atom)*` */
  predicate DotAtom(s: string)
    decreases |s|
  {
    |s| > 0 && AtomChar(s[0]) && DotAtomRest(s[1..])
  }

  /** What may follow the first character of an atom: `atomchar* ("." atom)*`. */
  predicate DotAtomRest(s: string)
    decreases |s|
  {
    s == []
    || (AtomChar(s[0]) && DotAtomRest(s[1..]))
    || (s[0] == '.' && DotAtom(s[1..]))
  }

  /** `'"' any+ '"'` */
  predicate QuotedLocal(s: string) {
    |s| >= 3 && s[0] == '"' && s[|s| - 1] == '"'
    && forall i :: 0 < i < |s| - 1 ==> !IsLineTerminator(s[i])
  }

  predicate LocalPart(s: string) {
    DotAtom(s) || QuotedLocal(s)
  }

  /** `(label ".")+ label2` */
  predicate DomainPart(s: string)
    decreases |s|
  {
    |s| > 0 && AtomChar(s[0]) && LabelRest(s[1..])
  }

  /** What may follow the first character of a non-final label: `labelchar* "." (label2 | domain)`. */
  predicate LabelRest(s: string)
    decreases |s|
  {
    |s| > 0
    && ((AtomChar(s[0]) && LabelRest(s[1..]))
        || (s[0] == '.' && (FinalLabel(s[1..]) || DomainPart(s[1..]))))
  }

  /** A character outside the Basic Multilingual Plane, which UTF-16 stores as a surrogate pair. */
  predicate IsAstral(c: char) {
    c as int > 0xFFFF
  }

  /** The length of a string in UTF-16 code units. */
  function Utf16Length(s: string): nat {
    if s == [] then 0 else Utf16Length(s[..|s| - 1]) + (if IsAstral(s[|s| - 1]) then 2 else 1)
  }

  /** A string is at least two code units long when it has two characters, or one astral character. */
  lemma {:induction false} Utf16LengthAtLeastTwo(s: string)
    ensures Utf16Length(s) >= |s|
    ensures Utf16Length(s) >= 2 <==> |s| >= 2 || (|s| == 1 && IsAstral(s[0]))
    decreases |s|
  {
    if s != [] {
      Utf16LengthAtLeastTwo(s[..|s| - 1]);
      if |s| == 1 {
        assert s[..0] == [];
      }
    }
  }

  /** `label2`: atom characters, at least two UTF-16 code units of them. */
  predicate FinalLabel(s: string) {
    Utf16Length(s) >= 2 && forall i :: 0 <= i < |s| ==> AtomChar(s[i])
  }

  /** `validateEmail`: some `@` splits the address into a local part and a domain. */
  predicate ValidEmail(s: string) {
    exists i :: 0 <= i < |s| && s[i] == '@' && LocalPart(s[..i]) && DomainPart(s[i + 1..])
  }

  // ---- position-by-position restatement of the pattern ----

  /** Every character is an atom character or a dot. */
  predicate AtomsAndDots(s: string) {
    forall i :: 0 <= i < |s| ==> AtomChar(s[i]) || s[i] == '.'
  }

  /** No dot directly follows another. */
  predicate NoDoubleDot(s: string) {
    forall i :: 0 <= i < |s| - 1 ==> !(s[i] == '.' && s[i + 1] == '.')
  }

  /** Non-empty runs of atom characters, separated by single dots, with no dot at either end. */
  predicate DotSeparated(s: string) {
    |s| > 0 && s[0] != '.' && s[|s| - 1] != '.' && AtomsAndDots(s) && NoDoubleDot(s)
  }

  /**
   * A dot-separated string with at least one dot whose last run is at least two
   * code units long: two characters, or a single astral one.
   */
  predicate DottedHostName(s: string) {
    DotSeparated(s) && '.' in s && |s| >= 2 && (s[|s| - 2] != '.' || IsAstral(s[|s| - 1]))
  }

  /** Putting an atom character in front of a string that starts with one changes no position-wise fact. */
  lemma ConsAtom(x: char, t: string)
    requires AtomChar(x) && t != [] && AtomChar(t[0])
    ensures DotSeparated([x] + t) <==> DotSeparated(t)
    ensures '.' in [x] + t <==> '.' in t
  {
    var s := [x] + t;
    assert s[1..] == t;
    if DotSeparated(t) {
      forall i | 0 <= i < |s| - 1 ensures !(s[i] == '.' && s[i + 1] == '.') {
        if i > 0 { assert s[i] == t[i - 1] && s[i + 1] == t[i]; }
      }
    }
    if DotSeparated(s) {
      forall i | 0 <= i < |t| - 1 ensures !(t[i] == '.' && t[i + 1] == '.') {
        assert t[i] == s[i + 1] && t[i + 1] == s[i + 2];
      }
    }
  }

  /** An atom character and a dot in front of a string: dot-separated exactly when the string is. */
  lemma ConsAtomDot(x: char, u: string)
    requires AtomChar(x)
    ensures DotSeparated([x, '.'] + u) <==> DotSeparated(u)
  {
    var s := [x, '.'] + u;
    assert s[2..] == u;
    if DotSeparated(u) {
      forall i | 0 <= i < |s| - 1 ensures !(s[i] == '.' && s[i + 1] == '.') {
        if i > 1 { assert s[i] == u[i - 2] && s[i + 1] == u[i - 1]; }
      }
    }
    if DotSeparated(s) {
      assert |s| > 2 && s[2] == u[0] && s[|s| - 1] == u[|u| - 1];
      assert !(s[1] == '.' && s[2] == '.');
      forall i | 0 <= i < |u| ensures AtomChar(u[i]) || u[i] == '.' {
        assert u[i] == s[i + 2];
      }
      forall i | 0 <= i < |u| - 1 ensures !(u[i] == '.' && u[i + 1] == '.') {
        assert u[i] == s[i + 2] && u[i + 1] == s[i + 3];
      }
    }
  }

  /** After an atom character `x`, `DotAtomRest` accepts `t` exactly when `x` followed by `t` is dot-separated. */
  lemma {:induction false} DotAtomRestIff(x: char, t: string)
    requires AtomChar(x)
    ensures DotAtomRest(t) <==> DotSeparated([x] + t)
    decreases |t|
  {
    if t == [] {
    } else if AtomChar(t[0]) {
      DotAtomRestIff(t[0], t[1..]);
      assert [t[0]] + t[1..] == t;
      ConsAtom(x, t);
    } else if t[0] == '.' {
      var u := t[1..];
      assert [x] + t == [x, '.'] + u;
      ConsAtomDot(x, u);
      if u != [] && AtomChar(u[0]) {
        DotAtomRestIff(u[0], u[1..]);
        assert [u[0]] + u[1..] == u;
      }
    } else {
      assert ([x] + t)[1] == t[0];
    }
  }

  /** The dot-atom alternative of the local part, position by position. */
  lemma DotAtomIff(s: string)
    ensures DotAtom(s) <==> DotSeparated(s)
  {
    if s != [] && AtomChar(s[0]) {
      DotAtomRestIff(s[0], s[1..]);
      assert [s[0]] + s[1..] == s;
    }
  }

  /** After an atom character `x`, `LabelRest` accepts `t` exactly when `x` followed by `t` is a dotted host name. */
  lemma {:induction false} LabelRestIff(x: char, t: string)
    requires AtomChar(x)
    ensures LabelRest(t) <==> DottedHostName([x] + t)
    decreases |t|
  {
    var s := [x] + t;
    if t == [] {
      assert s == [x];
    } else if AtomChar(t[0]) {
      LabelRestIff(t[0], t[1..]);
      assert [t[0]] + t[1..] == t;
      ConsAtom(x, t);
      assert s[|s| - 1] == t[|t| - 1];
      if |t| >= 2 {
        assert s[|s| - 2] == t[|t| - 2];
      } else {
        assert s == [x, t[0]];
      }
    } else if t[0] == '.' {
      var u := t[1..];
      assert s == [x, '.'] + u;
      ConsAtomDot(x, u);
      assert '.' in s by { assert s[1] == '.'; }
      if |u| >= 2 {
        assert s[|s| - 2] == u[|u| - 2];
      } else if |u| == 1 {
        assert s[|s| - 2] == '.';
      }
      if u != [] && AtomChar(u[0]) {
        LabelRestIff(u[0], u[1..]);
        assert [u[0]] + u[1..] == u;
      }
      if DotSeparated(u) && '.' !in u {
        assert forall i :: 0 <= i < |u| ==> AtomChar(u[i]) by {
          forall i | 0 <= i < |u| ensures AtomChar(u[i]) {
            assert u[i] in u;
          }
        }
      }
      if u != [] {
        assert s[|s| - 1] == u[|u| - 1];
      }
      Utf16LengthAtLeastTwo(u);
      if FinalLabel(u) {
        assert u[0] != '.' && u[|u| - 1] != '.';
        if |u| >= 2 { assert u[|u| - 2] != '.'; }
      }
    } else {
      assert s[1] == t[0];
    }
  }

  /** The domain part, position by position. */
  lemma DomainPartIff(s: string)
    ensures DomainPart(s) <==> DottedHostName(s)
  {
    if s != [] && AtomChar(s[0]) {
      LabelRestIff(s[0], s[1..]);
      assert [s[0]] + s[1..] == s;
    }
  }

  /** A domain never holds an `@`, so the split of a valid address is at its last `@`. */
  lemma ValidEmailSplitsAtLastAt(s: string, i: int)
    requires 0 <= i < |s| && s[i] == '@' && LocalPart(s[..i]) && DomainPart(s[i + 1..])
    ensures forall j :: i < j < |s| ==> s[j] != '@'
  {
    DomainPartIff(s[i + 1..]);
    forall j | i < j < |s| ensures s[j] != '@' {
      assert s[i + 1..][j - i - 1] == s[j];
    }
  }

  /** "b.com" is a domain: one label, a dot, and a final label of three characters. */
  lemma DomainExample()
    ensures DomainPart("b.com")
  {
    var d := "b.com";
    assert AtomChar('b') && AtomChar('c') && AtomChar('o') && AtomChar('m');
    assert FinalLabel("com");
    assert LabelRest(".com") by { assert ".com"[1..] == "com"; }
    assert d[1..] == ".com";
  }

  lemma ValidEmailExample()
    ensures ValidEmail("a@b.com")
  {
    var s := "a@b.com";
    assert s[..1] == "a" && s[2..] == "b.com";
    assert DotAtom("a") by { assert AtomChar('a') && "a"[1..] == []; }
    DomainExample();
    assert s[1] == '@' && LocalPart(s[..1]) && DomainPart(s[2..]);
  }

  /** An address without an `@` is refused. */
  lemma InvalidEmailExample()
    ensures !ValidEmail("not-an-email")
  {
    var s := "not-an-email";
    forall i | 0 <= i < |s| ensures s[i] != '@' {
      assert s[i] in "not-an-email";
    }
  }

  /** A final label of one character is refused. */
  lemma ShortTopLevelExample()
    ensures !ValidEmail("a@b.c")
  {
    var s := "a@b.c";
    forall i | 0 <= i < |s| && s[i] == '@' ensures !DomainPart(s[i + 1..]) {
      assert i == 1 by { assert s[0] != '@' && s[2] != '@' && s[3] != '@' && s[4] != '@'; }
      assert s[2..] == "b.c";
      DomainPartIff("b.c");
      assert "b.c"[1] == '.';
    }
  }

  /** A quoted local part may hold a space. */
  lemma QuotedLocalExample()
    ensures ValidEmail("\"a b\"@b.com")
  {
    var s := "\"a b\"@b.com";
    assert s[..5] == "\"a b\"" && s[6..] == "b.com";
    assert QuotedLocal(s[..5]);
    DomainExample();
    assert s[5] == '@' && LocalPart(s[..5]) && DomainPart(s[6..]);
  }

  /** The final label is counted in UTF-16 code units: one astral character is long enough. */
  lemma AstralFinalLabelExample()
    ensures ValidEmail("a@b.\U{1F600}")
  {
    var s := "a@b.\U{1F600}";
    assert s[..1] == "a" && s[2..] == "b.\U{1F600}";
    assert DotAtom("a") by { assert AtomChar('a') && "a"[1..] == []; }
    var f := "\U{1F600}";
    assert FinalLabel(f) by {
      Utf16LengthAtLeastTwo(f);
      assert IsAstral(f[0]);
      assert AtomChar(f[0]);
    }
    assert DomainPart("b.\U{1F600}") by {
      assert AtomChar('b');
      assert "b.\U{1F600}"[1..] == ".\U{1F600}" && ".\U{1F600}"[1..] == f;
    }
    assert s[1] == '@' && LocalPart(s[..1]) && DomainPart(s[2..]);
  }
}
