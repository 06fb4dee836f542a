/** Display capitalisation of weather descriptions: every word character that
    starts a word is upper-cased. Word characters are the ASCII letters, digits
    and underscore; a word starts where a word character follows the start of
    the string or a non-word character. */
module TextFormat {

  predicate IsWordChar(c: char)
  {
    'a' <= c <= 'z' || 'A' <= c <= 'Z' || '0' <= c <= '9' || c == '_'
  }

  /** Upper case of a word character: only the letters a-z change, each to the
      capital at the same place in the alphabet. */
  function ToUpper(c: char): (u: char)
    ensures IsWordChar(u) == IsWordChar(c)
    ensures 'a' <= c <= 'z' ==> 'A' <= u <= 'Z' && u as int - 'A' as int == c as int - 'a' as int
    ensures !('a' <= c <= 'z') ==> u == c
  {
    if 'a' <= c <= 'z' then (c as int - 32) as char else c
  }

  /** Position i holds a word character at a word boundary. */
  predicate StartsWord(s: string, i: int)
    requires 0 <= i < |s|
  {
    IsWordChar(s[i]) && (i == 0 || !IsWordChar(s[i - 1]))
  }

  /** The scan over `s`, where `afterWord` says whether the character before
      `s` was a word character. */
  function CapitalizeFrom(s: string, afterWord: bool): (r: string)
  {
    if s == [] then []
    else [if IsWordChar(s[0]) && !afterWord then ToUpper(s[0]) else s[0]]
         + CapitalizeFrom(s[1..], IsWordChar(s[0]))
  }

  /** The result has the input's length; a character is upper-cased exactly
      when it starts a word, and every other character is unchanged. */
  function Capitalize(s: string): (r: string)
    ensures |r| == |s|
    ensures forall i :: 0 <= i < |s| ==> r[i] == if StartsWord(s, i) then ToUpper(s[i]) else s[i]
  {
    CapitalizeFromAt(s, false);
    CapitalizeFrom(s, false)
  }

  lemma {:induction false} CapitalizeFromAt(s: string, afterWord: bool)
    ensures |CapitalizeFrom(s, afterWord)| == |s|
    ensures forall i {:trigger CapitalizeFrom(s, afterWord)[i]} :: 0 <= i < |s| ==>
      CapitalizeFrom(s, afterWord)[i] ==
        if IsWordChar(s[i]) && !(if i == 0 then afterWord else IsWordChar(s[i - 1]))
        then ToUpper(s[i]) else s[i]
  {
    if s != [] {
      var rest := CapitalizeFrom(s[1..], IsWordChar(s[0]));
      CapitalizeFromAt(s[1..], IsWordChar(s[0]));
      var r := CapitalizeFrom(s, afterWord);
      assert r == [if IsWordChar(s[0]) && !afterWord then ToUpper(s[0]) else s[0]] + rest;
      assert r[0] == if IsWordChar(s[0]) && !afterWord then ToUpper(s[0]) else s[0];
      forall i | 1 <= i < |s|
        ensures r[i] == if IsWordChar(s[i]) && !IsWordChar(s[i - 1]) then ToUpper(s[i]) else s[i]
      {
        assert r[i] == rest[i - 1];
        assert s[1..][i - 1] == s[i];
        if i == 1 {
          assert rest[0] == if IsWordChar(s[1]) && !IsWordChar(s[0]) then ToUpper(s[1]) else s[1];
        } else {
          assert s[1..][i - 2] == s[i - 1];
        }
      }
    }
  }

  /** Capitalising twice gives the same string as capitalising once. The body
      spells out the reasoning: upper-casing keeps word characters word
      characters, so the word boundaries, and with them the positions that
      change, are the same in the result as in the input. */
  lemma CapitalizeIdempotent(s: string)
    ensures Capitalize(Capitalize(s)) == Capitalize(s)
  {
    var t := Capitalize(s);
    forall i | 0 <= i < |t| ensures Capitalize(t)[i] == t[i] {
      assert IsWordChar(t[i]) == IsWordChar(s[i]);
      assert i > 0 ==> IsWordChar(t[i - 1]) == IsWordChar(s[i - 1]);
    }
  }
}
