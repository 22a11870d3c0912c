/**
 * Valid palindrome: a string is a palindrome when its letters and digits,
 * lower-cased, read the same forwards and backwards; every other character
 * is ignored.
 */
module Palindrome {
  import opened Sequences

  /**
   * The ASCII letters `A-Z`, `a-z` and digits `0-9`: the characters that
   * `isalpha() or isnumeric()` and `isalnum()` accept among ASCII.
   */
  function IsAlphaNum(c: char): (b: bool)
    ensures b ==> c as int < 128
    ensures b <==> ('0' <= c <= '9') || ('a' <= ToLower(c) <= 'z')
  {
    ('a' <= c <= 'z') || ('A' <= c <= 'Z') || ('0' <= c <= '9')
  }

  /** ASCII lower-casing: upper-case letters map to their lower-case partner, all else is kept. */
  function ToLower(c: char): (d: char)
    ensures 'A' <= c <= 'Z' ==> 'a' <= d <= 'z' && d as int - 'a' as int == c as int - 'A' as int
    ensures !('A' <= c <= 'Z') ==> d == c
  {
    if 'A' <= c <= 'Z' then (c as int - 'A' as int + 'a' as int) as char else c
  }

  /**
   * The filtered string of the reference solution: the letters and digits
   * of `s`, lower-cased, in order.
   */
  function Normalize(s: string): (t: string)
    ensures |t| <= |s|
  {
    if s == [] then [] else Keep(s[0]) + Normalize(s[1..])
  }

  /** What the filter keeps of one character: the character lower-cased, or nothing. */
  function Keep(c: char): (t: string)
    ensures |t| <= 1
    ensures t != [] <==> IsAlphaNum(c)
    ensures t != [] ==> t[0] == ToLower(c)
  {
    if IsAlphaNum(c) then [ToLower(c)] else []
  }

  /**
   * The filter-and-reverse solution, used as the specification. The empty
   * string and every one-character string are palindromes.
   */
  function IsPalindromeByFilter(s: string): (r: bool)
    ensures |s| <= 1 ==> r
  {
    IsPal(Normalize(s))
  }

  /** Filtering distributes over concatenation. */
  lemma {:induction false} NormalizeAppend(a: string, b: string)
    ensures Normalize(a + b) == Normalize(a) + Normalize(b)
  {
    if a == [] {
      assert a + b == b;
    } else {
      assert (a + b)[0] == a[0];
      assert (a + b)[1..] == a[1..] + b;
      NormalizeAppend(a[1..], b);
      calc {
        Normalize(a + b);
        Keep(a[0]) + Normalize(a[1..] + b);
        Keep(a[0]) + (Normalize(a[1..]) + Normalize(b));
        (Keep(a[0]) + Normalize(a[1..])) + Normalize(b);
        Normalize(a) + Normalize(b);
      }
    }
  }

  /** The filtered string holds only lower-case letters and digits. */
  lemma {:induction false} NormalizeChars(s: string)
    ensures forall i :: 0 <= i < |Normalize(s)| ==>
              IsAlphaNum(Normalize(s)[i]) && !('A' <= Normalize(s)[i] <= 'Z')
  {
    if s != [] {
      NormalizeChars(s[1..]);
    }
  }

  /**
   * A character that is not a letter or digit, inserted anywhere, does not
   * change the answer: such characters are only skipped, never compared.
   */
  lemma IgnoresNonAlphaNum(s: string, i: nat, c: char)
    requires i <= |s|
    requires !IsAlphaNum(c)
    ensures IsPalindromeByFilter(s[..i] + [c] + s[i..]) == IsPalindromeByFilter(s)
  {
    NormalizeSkips(s[..i], c, s[i..]);
    assert s[..i] + s[i..] == s;
  }

  /** Filtering drops a character that is not a letter or digit wherever it stands. */
  lemma NormalizeSkips(a: string, c: char, b: string)
    requires !IsAlphaNum(c)
    ensures Normalize(a + [c] + b) == Normalize(a + b)
  {
    NormalizeSingle(c);
    NormalizeAppend(a + [c], b);
    NormalizeAppend(a, [c]);
    NormalizeAppend(a, b);
  }

  /** `s` with every character lower-cased. */
  function LowerAll(s: string): (t: string)
    ensures |t| == |s|
    ensures forall i :: 0 <= i < |s| ==> t[i] == ToLower(s[i])
  {
    seq(|s|, i requires 0 <= i < |s| => ToLower(s[i]))
  }

  /** Case is ignored: lower-casing the input first gives the same filtered string. */
  lemma {:induction false} NormalizeLowerAll(s: string)
    ensures Normalize(LowerAll(s)) == Normalize(s)
  {
    if s != [] {
      assert LowerAll(s)[1..] == LowerAll(s[1..]);
      NormalizeLowerAll(s[1..]);
    }
  }

  /** The answer does not depend on the case of the letters in `s`. */
  lemma CaseInsensitive(s: string)
    ensures IsPalindromeByFilter(LowerAll(s)) == IsPalindromeByFilter(s)
  {
    NormalizeLowerAll(s);
  }

  /** Filtering a single character keeps it, lower-cased, exactly when it is a letter or digit. */
  lemma NormalizeSingle(c: char)
    ensures Normalize([c]) == Keep(c)
  {
    assert [c][1..] == [];
  }

  /**
   * One step of the two pointers on the window `s[front..back + 1]`: a
   * character at either end that is not a letter or digit can be dropped
   * without changing the filtered window, and when both ends are letters or
   * digits the window is a palindrome exactly when they agree after
   * lower-casing and the inside of the window is a palindrome.
   */
  lemma WindowStep(s: string, front: nat, back: nat)
    requires front < back < |s|
    ensures !IsAlphaNum(s[front]) ==> Normalize(s[front..back + 1]) == Normalize(s[front + 1..back + 1])
    ensures !IsAlphaNum(s[back]) ==> Normalize(s[front..back + 1]) == Normalize(s[front..back])
    ensures IsAlphaNum(s[front]) && IsAlphaNum(s[back]) ==>
              (IsPal(Normalize(s[front..back + 1])) <==>
               ToLower(s[front]) == ToLower(s[back]) && IsPal(Normalize(s[front + 1..back])))
  {
    var x, inside, y := s[front], s[front + 1..back], s[back];
    assert s[front..back + 1] == [x] + inside + [y];
    assert s[front + 1..back + 1] == inside + [y];
    assert s[front..back] == [x] + inside;
    NormalizeAppend([x] + inside, [y]);
    NormalizeAppend([x], inside);
    NormalizeAppend(inside, [y]);
    NormalizeSingle(x);
    NormalizeSingle(y);
    if IsAlphaNum(x) && IsAlphaNum(y) {
      PalShell(ToLower(x), Normalize(inside), ToLower(y));
    }
  }

  /**
   * The fixed two-pointer solution. `front` and `back` walk towards each
   * other; a pointer at a character that is not a letter or digit moves on
   * without a comparison, and the first pair of letters or digits that
   * differ after lower-casing answers false.
   */
  method IsPalindrome(s: string) returns (r: bool)
    ensures r == IsPalindromeByFilter(s)
  {
    var back := |s| - 1;
    var front := 0;
    assert s[front..back + 1] == s;
    while front < back
      invariant 0 <= front <= back + 1 <= |s|
      invariant IsPalindromeByFilter(s) == IsPal(Normalize(s[front..back + 1]))
      decreases back - front
    {
      var frontChar := s[front];
      var backChar := s[back];
      WindowStep(s, front, back);

      if !IsAlphaNum(frontChar) {
        front := front + 1;
        continue;
      }

      if !IsAlphaNum(backChar) {
        back := back - 1;
        continue;
      }

      if ToLower(frontChar) != ToLower(backChar) {
        return false;
      }

      front := front + 1;
      back := back - 1;
    }
    ShortIsPal(Normalize(s[front..back + 1]));
    return true;
  }

  /**
   * Filtering a string cut into four pieces gives the four filtered pieces,
   * in order.
   */
  lemma NormalizeFour(a: string, b: string, c: string, d: string,
                      fa: string, fb: string, fc: string, fd: string)
    requires Normalize(a) == fa && Normalize(b) == fb && Normalize(c) == fc && Normalize(d) == fd
    ensures Normalize(a + b + c + d) == fa + fb + fc + fd
  {
    NormalizeAppend(a + b + c, d);
    NormalizeAppend(a + b, c);
    NormalizeAppend(a, b);
  }

  // Evaluating the filter on a string literal costs the verifier more with
  // every character, so the first worked example is filtered word by word
  // and the words are put back together with NormalizeFour and NormalizeAppend.
  lemma WordWas() ensures Normalize("Was ") == "was" { }
  lemma WordIt() ensures Normalize("it ") == "it" { }
  lemma WordA() ensures Normalize("a ") == "a" { }
  lemma WordCar() ensures Normalize("car ") == "car" { }
  lemma WordOr() ensures Normalize("or ") == "or" { }
  lemma WordCat() ensures Normalize("cat ") == "cat" { }
  lemma WordISaw() ensures Normalize("I saw?") == "isaw" { }

  /** The first half of the first worked example, filtered. */
  lemma CarCatFirstHalf()
    ensures Normalize("Was " + "it " + "a " + "car ") == "was" + "it" + "a" + "car"
  {
    WordWas();
    WordIt();
    WordA();
    WordCar();
    NormalizeFour("Was ", "it ", "a ", "car ", "was", "it", "a", "car");
  }

  /** The second half of the first worked example, filtered. */
  lemma CarCatSecondHalf()
    ensures Normalize("or " + "a " + "cat " + "I saw?") == "or" + "a" + "cat" + "isaw"
  {
    WordOr();
    WordA();
    WordCat();
    WordISaw();
    NormalizeFour("or ", "a ", "cat ", "I saw?", "or", "a", "cat", "isaw");
  }

  lemma CarCatFiltered()
    ensures IsPal(("was" + "it" + "a" + "car") + ("or" + "a" + "cat" + "isaw"))
  {
  }

  lemma CarCatCut()
    ensures "Was it a car or a cat I saw?" == ("Was " + "it " + "a " + "car ") + ("or " + "a " + "cat " + "I saw?")
  {
  }

  /** First worked example: "Was it a car or a cat I saw?" is a palindrome. */
  lemma CarCatExample(s: string)
    requires s == "Was it a car or a cat I saw?"
    ensures IsPalindromeByFilter(s)
  {
    CarCatCut();
    CarCatFirstHalf();
    CarCatSecondHalf();
    CarCatFiltered();
    NormalizeAppend("Was " + "it " + "a " + "car ", "or " + "a " + "cat " + "I saw?");
  }

  /** The two pieces of the second worked example, filtered. */
  lemma TabCatPieces()
    ensures Normalize("tab ") == "tab"
    ensures Normalize("a cat") == "acat"
  {
  }

  /** Second worked example: "tab a cat" is not a palindrome ('b' faces 'c'). */
  lemma TabCatExample(s: string)
    requires s == "tab a cat"
    ensures !IsPalindromeByFilter(s)
  {
    assert s == "tab " + "a cat";
    TabCatPieces();
    NormalizeAppend("tab ", "a cat");
    assert ("tab" + "acat")[2] != ("tab" + "acat")[4];
  }

  /** The two worked examples of the problem statement, run through the two-pointer solution. */
  method DocExamples() returns (carCat: bool, tabCat: bool)
    ensures carCat && !tabCat
  {
    var carCatText := "Was it a car or a cat I saw?";
    var tabCatText := "tab a cat";
    carCat := IsPalindrome(carCatText);
    tabCat := IsPalindrome(tabCatText);
    CarCatExample(carCatText);
    TabCatExample(tabCatText);
  }
}
