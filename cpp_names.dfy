/** The naming helpers of the C++ code generator: the include-guard
    identifier built from a file name, and the joiners that add a prefix or
    a postfix to a name in the name's own style (camel case or snake case).
    Character classes are those of the "C" locale. */
module CppNames {

  /** A byte of a `std::string`, seen as the character with that code. */
  type Byte = c: char | c as int < 0x100

  predicate IsUpper(c: char) { 'A' <= c <= 'Z' }
  predicate IsLower(c: char) { 'a' <= c <= 'z' }
  predicate IsDigit(c: char) { '0' <= c <= '9' }
  predicate IsAlnum(c: char) { IsUpper(c) || IsLower(c) || IsDigit(c) }

  function ToUpper(c: char): char
  {
    if IsLower(c) then (c as int - 32) as char else c
  }

  function ToLower(c: char): char
  {
    if IsUpper(c) then (c as int + 32) as char else c
  }

  // ---------------------------------------------------------------------
  // file_name_identifier

  const HexDigits: string := "0123456789abcdef"

  /** `char` is signed on the generator's targets: a byte of 0x80 or more
      reads as a negative number. */
  function SignedChar(c: Byte): int
  {
    if c as int < 0x80 then c as int else c as int - 0x100
  }

  /** `(c >> 4) & 0xf` on the signed value: `>>` of a negative `int` shifts
      arithmetically (floor division by 16) and `& 0xf` keeps the low four
      bits of the two's complement (the non-negative remainder). The sign
      therefore does not reach the output: the digit is the byte's high
      nibble. */
  function HighNibble(c: Byte): (r: nat)
    ensures r == c as int / 16
  {
    (SignedChar(c) / 16) % 16
  }

  /** `c & 0xf` on the signed value: the byte's low nibble. */
  function LowNibble(c: Byte): (r: nat)
    ensures r == c as int % 16
  {
    SignedChar(c) % 16
  }

  /** `hex[n]`: a digit or one of `a` to `f`. */
  function HexDigit(n: nat): (r: char)
    requires n < 16
    ensures IsDigit(r) || 'a' <= r <= 'f'
  {
    HexDigits[n]
  }

  /** What one byte of the file name becomes. */
  function Escape(c: Byte): (r: string)
    ensures 1 <= |r| <= 3 && forall k :: 0 <= k < |r| ==> IdentifierChar(r[k])
  {
    if IsAlnum(c) then [ToUpper(c)]
    else if c == '_' then "_"
    else ['_', HexDigit(HighNibble(c)), HexDigit(LowNibble(c))]
  }

  /** The characters an identifier can be made of: upper-case letters and
      digits from alphanumeric bytes, `_`, and the lower-case hex digits of
      escaped bytes. */
  predicate IdentifierChar(c: char)
  {
    IsUpper(c) || IsDigit(c) || c == '_' || 'a' <= c <= 'f'
  }

  /** `file_name_identifier` as a value: the escapes of the bytes, in order. */
  function Identifier(s: seq<Byte>): string
  {
    if s == [] then [] else Identifier(s[..|s| - 1]) + Escape(s[|s| - 1])
  }

  /** `file_name_identifier`: builds the identifier byte by byte. */
  method FileNameIdentifier(filename: seq<Byte>) returns (result: string)
    ensures result == Identifier(filename)
  {
    result := "";
    for i := 0 to |filename|
      invariant result == Identifier(filename[..i])
    {
      var c := filename[i];
      ghost var before := result;
      if IsAlnum(c) {
        result := result + [ToUpper(c)];
      } else if c == '_' {
        result := result + [c];
      } else {
        result := result + ['_'];
        result := result + [HexDigit((SignedChar(c) / 16) % 16)];
        result := result + [HexDigit(SignedChar(c) % 16)];
      }
      IdentifierStep(filename, i, before, result);
    }
    assert filename[..|filename|] == filename;
  }

  lemma IdentifierStep(s: seq<Byte>, i: nat, before: string, after: string)
    requires i < |s| && before == Identifier(s[..i]) && after == before + Escape(s[i])
    ensures after == Identifier(s[..i + 1])
  {
    assert s[..i + 1][..i] == s[..i];
  }

  /** Every character of an identifier is a C identifier character, and
      each byte gives one to three of them. */
  lemma {:induction false} IdentifierAlphabet(s: seq<Byte>)
    ensures var r := Identifier(s);
      (forall k :: 0 <= k < |r| ==> IdentifierChar(r[k])) && |s| <= |r| <= 3 * |s|
    decreases |s|
  {
    if s != [] {
      IdentifierAlphabet(s[..|s| - 1]);
    }
  }

  /** The identifier of a path is the identifiers of its pieces joined. */
  lemma {:induction false} IdentifierConcat(a: seq<Byte>, b: seq<Byte>)
    ensures Identifier(a + b) == Identifier(a) + Identifier(b)
    decreases |b|
  {
    if b == [] {
      assert a + b == a;
    } else {
      IdentifierConcat(a, b[..|b| - 1]);
      IdentifierConcatLast(a, b);
      JoinAfter(Identifier(a + b), Identifier(a + b[..|b| - 1]), Identifier(a),
                Identifier(b[..|b| - 1]), Identifier(b), Escape(b[|b| - 1]));
    }
  }

  /** The last byte of a non-empty suffix comes last. */
  lemma IdentifierConcatLast(a: seq<Byte>, b: seq<Byte>)
    requires b != []
    ensures Identifier(a + b) == Identifier(a + b[..|b| - 1]) + Escape(b[|b| - 1])
  {
    assert (a + b)[..|a + b| - 1] == a + b[..|b| - 1];
  }

  lemma JoinAfter(whole: string, front: string, a: string, mid: string, back: string, e: string)
    requires whole == front + e && front == a + mid && back == mid + e
    ensures whole == a + back
  {
  }

  /** The name upper-cased. */
  function Upper(s: string): (r: string)
  {
    seq(|s|, k requires 0 <= k < |s| => ToUpper(s[k]))
  }

  /** A name made only of alphanumerics and `_` is just upper-cased. */
  lemma {:induction false} IdentifierOfWord(s: seq<Byte>)
    requires forall k :: 0 <= k < |s| ==> IsAlnum(s[k]) || s[k] == '_'
    ensures Identifier(s) == Upper(s)
    decreases |s|
  {
    if s != [] {
      var s' := s[..|s| - 1];
      IdentifierOfWord(s');
      assert Upper(s) == Upper(s') + [ToUpper(s[|s| - 1])];
    }
  }

  /** Distinct names can share an identifier: case is lost, and a kept `_`
      followed by two hex digits reads like an escaped byte. */
  lemma CaseCollision()
    ensures Identifier("a.h") == Identifier("A.h") == "A_2eH"
  {
    LetterOrDot("a.h");
    LetterOrDot("A.h");
  }

  lemma {:induction false} LetterOrDot(s: seq<Byte>)
    requires |s| == 3 && s[1] == '.' && IsAlnum(s[0]) && IsAlnum(s[2])
    ensures Identifier(s) == [ToUpper(s[0]), '_', '2', 'e', ToUpper(s[2])]
  {
    assert s[..2][..1] == [s[0]] && [s[0]][..0] == [];
    assert Identifier([s[0]]) == [ToUpper(s[0])];
    assert Escape('.') == "_2e";
    assert Identifier(s[..2]) == [ToUpper(s[0])] + "_2e";
  }

  lemma EscapeCollision()
    ensures Identifier("_12") == Identifier(['\U{12}']) == "_12"
  {
    assert "_12"[..2] == "_1" && "_1"[..1] == "_" && "_"[..0] == [];
    assert ['\U{12}'][..0] == [];
  }

  // ---------------------------------------------------------------------
  // is_camel_case

  /** `is_camel_case`: the name holds an upper-case letter somewhere. */
  function IsCamelCase(s: string): (r: bool)
    ensures r <==> exists k :: 0 <= k < |s| && IsUpper(s[k])
  {
    if s == [] then false
    else if IsUpper(s[0]) then true
    else
      var r := IsCamelCase(s[1..]);
      assert r ==> exists k :: 0 <= k < |s| - 1 && IsUpper(s[1..][k]);
      assert forall k :: 1 <= k < |s| ==> s[k] == s[1..][k - 1];
      r
  }

  // ---------------------------------------------------------------------
  // lower_vec

  /** The parts written one after another into the string stream. */
  function Concat(parts: seq<string>): string
  {
    if parts == [] then "" else Concat(parts[..|parts| - 1]) + parts[|parts| - 1]
  }

  /** `if (isalnum(c)) c = tolower(c)` */
  function LowerAlnum(c: char): char
  {
    if IsAlnum(c) then ToLower(c) else c
  }

  /** The name with every alphanumeric character lower-cased. */
  function Lowered(s: string): string
  {
    seq(|s|, k requires 0 <= k < |s| => LowerAlnum(s[k]))
  }

  /** `lower_vec`: joins the parts, then lower-cases in place. */
  method LowerVec(vec: seq<string>) returns (retval: string)
    ensures retval == Lowered(Concat(vec))
  {
    var ss := "";
    for j := 0 to |vec|
      invariant ss == Concat(vec[..j])
    {
      ss := ss + vec[j];
      assert vec[..j + 1][..j] == vec[..j];
    }
    assert vec[..|vec|] == vec;
    retval := ss;
    for i := 0 to |ss|
      invariant |retval| == |ss|
      invariant forall k :: 0 <= k < i ==> retval[k] == LowerAlnum(ss[k])
      invariant forall k :: i <= k < |ss| ==> retval[k] == ss[k]
    {
      if IsAlnum(retval[i]) {
        retval := retval[i := ToLower(retval[i])];
      }
    }
  }

  /** Three parts joined. */
  lemma Concat3(a: string, b: string, c: string)
    ensures Concat([a, b, c]) == a + b + c
  {
    assert [a, b, c][..2] == [a, b];
    assert [a, b][..1] == [a];
    assert [a][..0] == [];
    assert Concat([a]) == "" + a == a;
    assert Concat([a, b]) == a + b;
  }

  /** Lowering keeps the length and the non-letters, leaves no upper-case
      letter behind, and changes nothing a second time. */
  lemma LoweredFacts(s: string)
    ensures |Lowered(s)| == |s|
    ensures forall k :: 0 <= k < |s| ==> !IsUpper(Lowered(s)[k])
    ensures forall k :: 0 <= k < |s| && !IsUpper(s[k]) ==> Lowered(s)[k] == s[k]
    ensures Lowered(Lowered(s)) == Lowered(s)
    ensures !IsCamelCase(Lowered(s))
  {
  }

  /** Lowering works piece by piece. */
  lemma LoweredConcat(a: string, b: string)
    ensures Lowered(a + b) == Lowered(a) + Lowered(b)
  {
  }

  // ---------------------------------------------------------------------
  // proper_postfix_token, proper_prefix_token

  /** `s[0] = toupper(s[0])`. On an empty string this writes back the
      terminating NUL, which `toupper` leaves as it is; the string stays
      empty. */
  function Capitalize(s: string): string
  {
    if s == [] then [] else [ToUpper(s[0])] + s[1..]
  }

  /** Capitalising changes the case of the head and nothing else, and keeps
      every upper-case letter. */
  lemma CapitalizeFacts(s: string)
    ensures |Capitalize(s)| == |s|
    ensures Lowered(Capitalize(s)) == Lowered(s)
    ensures IsCamelCase(s) ==> IsCamelCase(Capitalize(s))
  {
    if IsCamelCase(s) {
      var k :| 0 <= k < |s| && IsUpper(s[k]);
      assert IsUpper(Capitalize(s)[k]);
    }
  }

  /** Two camel-case words joined: both heads capitalised. */
  lemma CamelJoin(a: string, b: string, upperIn: string)
    requires upperIn == a || upperIn == b
    requires IsCamelCase(upperIn)
    ensures var r := Capitalize(a) + Capitalize(b);
      |r| == |a| + |b| && IsCamelCase(r) && Lowered(r) == Lowered(a + b)
      && (a != [] ==> r[0] == ToUpper(a[0]) && r[1..|a|] == a[1..])
      && (b != [] ==> r[|a|] == ToUpper(b[0]) && r[|a| + 1..] == b[1..])
  {
    var r := Capitalize(a) + Capitalize(b);
    CapitalizeFacts(a);
    CapitalizeFacts(b);
    LoweredConcat(Capitalize(a), Capitalize(b));
    LoweredConcat(a, b);
    var k :| 0 <= k < |Capitalize(upperIn)| && IsUpper(Capitalize(upperIn)[k]);
    if upperIn == a {
      assert r[k] == Capitalize(a)[k];
    } else {
      assert r[|a| + k] == Capitalize(b)[k];
    }
  }

  /** Two words joined snake-style: `a_b`, all lower case. */
  lemma SnakeJoin(a: string, b: string)
    ensures var r := Lowered(Concat([a, "_", b]));
      |r| == |a| + 1 + |b| && r[|a|] == '_' && !IsCamelCase(r)
      && r == Lowered(r) && r == Lowered(a) + "_" + Lowered(b)
  {
    Concat3(a, "_", b);
    LoweredFacts(a + "_" + b);
    LoweredConcat(a + "_", b);
    LoweredConcat(a, "_");
  }

  /** `proper_postfix_token`; its CHECK aborts the generator when both
      parts are empty. A camel-case name gets the postfix as a new word
      with a capital head, itself capitalised; any other name gets
      `name_postfix` in lower case. The result is camel case exactly when
      the name is. */
  function PostfixToken(s: string, postfix: string): (r: string)
    requires s != [] || postfix != []
    ensures IsCamelCase(r) <==> IsCamelCase(s)
    ensures IsCamelCase(s) ==>
      |r| == |s| + |postfix| && Lowered(r) == Lowered(s + postfix)
      && r[0] == ToUpper(s[0]) && r[1..|s|] == s[1..]
      && (postfix != [] ==> r[|s|] == ToUpper(postfix[0]) && r[|s| + 1..] == postfix[1..])
    ensures !IsCamelCase(s) ==>
      |r| == |s| + 1 + |postfix| && r[|s|] == '_'
      && r == Lowered(s) + "_" + Lowered(postfix)
  {
    if IsCamelCase(s) then
      CamelJoin(s, postfix, s);
      Capitalize(s) + Capitalize(postfix)
    else
      SnakeJoin(s, postfix);
      Lowered(Concat([s, "_", postfix]))
  }

  /** `proper_prefix_token`: the same rule with the prefix in front; the
      style is still that of the name `s`. */
  function PrefixToken(prefix: string, s: string): (r: string)
    requires s != [] || prefix != []
    ensures IsCamelCase(r) <==> IsCamelCase(s)
    ensures IsCamelCase(s) ==>
      |r| == |prefix| + |s| && Lowered(r) == Lowered(prefix + s)
      && r[|prefix|] == ToUpper(s[0]) && r[|prefix| + 1..] == s[1..]
      && (prefix != [] ==> r[0] == ToUpper(prefix[0]) && r[1..|prefix|] == prefix[1..])
    ensures !IsCamelCase(s) ==>
      |r| == |prefix| + 1 + |s| && r[|prefix|] == '_'
      && r == Lowered(prefix) + "_" + Lowered(s)
  {
    if IsCamelCase(s) then
      CamelJoin(prefix, s, s);
      Capitalize(prefix) + Capitalize(s)
    else
      SnakeJoin(prefix, s);
      Lowered(Concat([prefix, "_", s]))
  }
}
