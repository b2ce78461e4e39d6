/**
 * The string operations the node applies to its parameters: JavaScript's
 * String.prototype.trim, the `/\/$/` replacement that removes one trailing
 * slash, and the anchored test against the regular expression `^https?:\/\/.+`.
 */
module Text {

  /** ECMAScript LineTerminator: the characters `.` in a regular expression does not match. */
  predicate IsLineTerminator(c: char)
  {
    c == '\n' || c == '\r' || c == '\U{2028}' || c == '\U{2029}'
  }

  /** ECMAScript WhiteSpace or LineTerminator: the characters trim removes. */
  predicate IsSpace(c: char)
  {
    c == '\t' || c == '\U{000B}' || c == '\U{000C}' || c == ' ' || c == '\U{00A0}'
    || c == '\U{1680}' || ('\U{2000}' <= c <= '\U{200A}') || c == '\U{202F}'
    || c == '\U{205F}' || c == '\U{3000}' || c == '\U{FEFF}'
    || IsLineTerminator(c)
  }

  /** Drops the leading white space; what remains is a suffix of `s`. */
  function TrimStart(s: string): (r: string)
    ensures |r| <= |s| && r == s[|s| - |r|..]
    ensures forall i :: 0 <= i < |s| - |r| ==> IsSpace(s[i])
    ensures r == [] || !IsSpace(r[0])
  {
    if s != [] && IsSpace(s[0]) then TrimStart(s[1..]) else s
  }

  /** Drops the trailing white space; what remains is a prefix of `s`. */
  function TrimEnd(s: string): (r: string)
    ensures |r| <= |s| && r == s[..|r|]
    ensures forall i :: |r| <= i < |s| ==> IsSpace(s[i])
    ensures r == [] || !IsSpace(r[|r| - 1])
  {
    if s != [] && IsSpace(s[|s| - 1]) then TrimEnd(s[..|s| - 1]) else s
  }

  /** String.prototype.trim. The result is empty exactly when every character is white space. */
  function Trim(s: string): (r: string)
    ensures r == [] <==> forall i :: 0 <= i < |s| ==> IsSpace(s[i])
    ensures r != [] ==> !IsSpace(r[0]) && !IsSpace(r[|r| - 1])
    ensures |r| <= |s|
  {
    var t := TrimStart(s);
    var r := TrimEnd(t);
    assert r == [] ==> t == [];
    assert r != [] ==> !IsSpace(r[0]) by {
      if r != [] {
        assert r[0] == t[0];
      }
    }
    r
  }

  /** `!s.trim()`: the trimmed string is empty, i.e. falsy. */
  predicate IsBlank(s: string)
  {
    Trim(s) == []
  }

  /** `s.replace(/\/$/, '')`: `$` without the m flag matches only at the very end. */
  function StripTrailingSlash(s: string): (r: string)
    ensures s != [] && s[|s| - 1] == '/' ==> r + "/" == s
    ensures !(s != [] && s[|s| - 1] == '/') ==> r == s
    ensures |s| - 1 <= |r| <= |s| && r == s[..|r|]
  {
    if s != [] && s[|s| - 1] == '/' then s[..|s| - 1] else s
  }

  /**
   * One element of a regular expression built from literals, optional
   * literals and `.+`: enough to state `^https?:\/\/.+` as written.
   */
  datatype Atom = Lit(c: char) | OptLit(c: char) | AnyPlus

  /**
   * Whether pattern `p` matches a prefix of `s` (the pattern is anchored at
   * the start and has no `$`), with the backtracking semantics of a regular
   * expression: an optional literal may be taken or skipped, and `.+`
   * consumes one or more characters other than line terminators.
   */
  predicate Match(p: seq<Atom>, s: string)
    decreases |s|, |p|
  {
    if p == [] then true
    else match p[0]
      case Lit(c) => s != [] && s[0] == c && Match(p[1..], s[1..])
      case OptLit(c) => (s != [] && s[0] == c && Match(p[1..], s[1..])) || Match(p[1..], s)
      case AnyPlus => s != [] && !IsLineTerminator(s[0]) && (Match(p[1..], s[1..]) || Match(p, s[1..]))
  }

  /** `^https?:\/\/.+` */
  const HttpUrlPattern: seq<Atom> :=
    [Lit('h'), Lit('t'), Lit('t'), Lit('p'), OptLit('s'), Lit(':'), Lit('/'), Lit('/'), AnyPlus]

  /**
   * `s.match(/^https?:\/\/.+/)` is non-null: the scheme prefix followed by a
   * character that is not a line terminator (IsHttpUrlIff proves this is what
   * the regular expression accepts).
   */
  predicate IsHttpUrl(s: string)
  {
    (|s| > 7 && s[..7] == "http://" && !IsLineTerminator(s[7]))
      || (|s| > 8 && s[..8] == "https://" && !IsLineTerminator(s[8]))
  }

  lemma {:induction false} MatchLiterals(lits: string, rest: seq<Atom>, s: string)
    ensures Match(seq(|lits|, i requires 0 <= i < |lits| => Lit(lits[i])) + rest, s)
            <==> |lits| <= |s| && s[..|lits|] == lits && Match(rest, s[|lits|..])
    decreases |lits|
  {
    var p := seq(|lits|, i requires 0 <= i < |lits| => Lit(lits[i])) + rest;
    if lits != [] {
      var q := seq(|lits| - 1, i requires 0 <= i < |lits| - 1 => Lit(lits[1..][i])) + rest;
      assert p[1..] == q;
      MatchLiterals(lits[1..], rest, if s == [] then s else s[1..]);
      if s != [] && |lits| <= |s| {
        assert s[..|lits|] == [s[0]] + s[1..][..|lits| - 1];
        assert s[|lits|..] == s[1..][|lits| - 1..];
      }
    } else {
      assert p == rest;
    }
  }

  lemma AnyPlusAtEnd(s: string)
    ensures Match([AnyPlus], s) <==> s != [] && !IsLineTerminator(s[0])
  {
    if s != [] {
      assert [AnyPlus][1..] == [];
    }
  }

  /** The regular expression `^https?:\/\/.+` accepts exactly the strings IsHttpUrl describes. */
  lemma IsHttpUrlIff(s: string)
    ensures Match(HttpUrlPattern, s) <==> IsHttpUrl(s)
  {
    var tail := [OptLit('s'), Lit(':'), Lit('/'), Lit('/'), AnyPlus];
    assert HttpUrlPattern == seq(4, i requires 0 <= i < 4 => Lit("http"[i])) + tail;
    MatchLiterals("http", tail, s);
    var slashes := [AnyPlus];
    assert tail[1..] == seq(3, i requires 0 <= i < 3 => Lit("://"[i])) + slashes;
    if |s| >= 4 {
      var u := s[4..];
      MatchLiterals("://", slashes, u);
      if |u| >= 3 { AnyPlusAtEnd(u[3..]); }
      if u != [] {
        var v := u[1..];
        MatchLiterals("://", slashes, v);
        if |v| >= 3 { AnyPlusAtEnd(v[3..]); assert v[3..] == s[8..]; assert v[..3] == s[5..8]; }
      }
      assert |u| >= 3 ==> u[..3] == s[4..7] && u[3..] == s[7..];
      if |s| > 7 && s[..4] == "http" && s[4..7] == "://" {
        assert s[..7] == "http://";
      }
      if |s| > 7 && s[..7] == "http://" {
        assert s[..4] == "http" && s[4..7] == "://";
      }
      if |s| > 8 && s[..4] == "http" && s[4] == 's' && s[5..8] == "://" {
        assert s[..8] == "https://";
      }
      if |s| > 8 && s[..8] == "https://" {
        assert s[..4] == "http" && s[4] == 's' && s[5..8] == "://";
      }
    }
  }

  /** A URL that passes the regular expression test is never blank. */
  lemma HttpUrlIsNotBlank(s: string)
    ensures IsHttpUrl(s) ==> !IsBlank(s)
  {
    if IsHttpUrl(s) {
      assert s[0] == 'h';
    }
  }
}
