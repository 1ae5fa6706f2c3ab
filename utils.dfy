/** The pretend database look-ups of the e-commerce bot: a username check, a
    tracking-number check and a package look-up. Each runs a loop over a
    fixed list; each is paired with a declarative definition of its answer. */
module EcommerceUtils {

  // ---------------------------------------------------------------------
  // validateUsername

  const InvalidChars: seq<char> := ['!', '@', '#', '$', '%', '^', '&', '*', '(', ')']

  /** A username is valid when it holds none of the forbidden characters. */
  predicate UsernameValid(user: string)
  {
    forall c :: c in InvalidChars ==> c !in user
  }

  method ValidateUsername(user: string) returns (isValid: bool)
    ensures isValid == UsernameValid(user)
    ensures !isValid <==> exists j :: 0 <= j < |user| && user[j] in InvalidChars
  {
    isValid := true;
    for k := 0 to |InvalidChars|
      invariant isValid <==> forall j :: 0 <= j < k ==> InvalidChars[j] !in user
    {
      if InvalidChars[k] in user {
        isValid := false;
      }
    }
    assert isValid <==> forall j :: 0 <= j < |InvalidChars| ==> InvalidChars[j] !in user;
  }

  /** A username that is invalid stays invalid inside any longer string. */
  lemma UsernameInvalidExtends(user: string, before: string, after: string)
    requires !UsernameValid(user)
    ensures !UsernameValid(before + user + after)
  {
    var c :| c in InvalidChars && c in user;
    var j :| 0 <= j < |user| && user[j] == c;
    assert (before + user + after)[|before| + j] == c;
  }

  lemma EmptyUsernameValid()
    ensures UsernameValid("")
  {
  }

  // ---------------------------------------------------------------------
  // validateTrackingNumber

  const InvalidSequences: seq<string> := ["432", "dr3", "hf2", "111", "625cdw"]

  /** `needle` occurs in `hay` as a contiguous run. */
  predicate IsSubstring(needle: string, hay: string)
  {
    exists i :: 0 <= i <= |hay| && needle <= hay[i..]
  }

  /** Python's `needle in hay` on two strings: a scan for a starting
      position at which `needle` is a prefix of the rest. */
  function Contains(hay: string, needle: string): (r: bool)
    ensures r <==> IsSubstring(needle, hay)
    decreases |hay|
  {
    if needle <= hay then
      assert hay[0..] == hay;
      true
    else if hay == [] then
      false
    else
      var r := Contains(hay[1..], needle);
      assert forall i :: 0 <= i <= |hay| - 1 ==> hay[1..][i..] == hay[i + 1..];
      assert IsSubstring(needle, hay) ==> IsSubstring(needle, hay[1..]) by {
        if IsSubstring(needle, hay) {
          var i :| 0 <= i <= |hay| && needle <= hay[i..];
          assert i != 0;
          assert needle <= hay[1..][i - 1..];
        }
      }
      r
  }

  /** A tracking number is valid when none of the forbidden runs occurs in
      it. */
  predicate TrackingNumberValid(num: string)
  {
    forall j :: 0 <= j < |InvalidSequences| ==> !IsSubstring(InvalidSequences[j], num)
  }

  method ValidateTrackingNumber(num: string) returns (isValid: bool)
    ensures isValid == TrackingNumberValid(num)
  {
    isValid := true;
    for k := 0 to |InvalidSequences|
      invariant isValid <==> forall j :: 0 <= j < k ==> !IsSubstring(InvalidSequences[j], num)
    {
      if Contains(num, InvalidSequences[k]) {
        isValid := false;
      }
    }
  }

  lemma SubstringExtends(needle: string, hay: string, before: string, after: string)
    requires IsSubstring(needle, hay)
    ensures IsSubstring(needle, before + hay + after)
  {
    var i :| 0 <= i <= |hay| && needle <= hay[i..];
    var longer := before + hay + after;
    assert longer[|before| + i..] == hay[i..] + after;
  }

  /** A tracking number that is invalid stays invalid whatever is put before
      or after it. */
  lemma TrackingNumberInvalidExtends(num: string, before: string, after: string)
    requires !TrackingNumberValid(num)
    ensures !TrackingNumberValid(before + num + after)
  {
    var j :| 0 <= j < |InvalidSequences| && IsSubstring(InvalidSequences[j], num);
    SubstringExtends(InvalidSequences[j], num, before, after);
  }

  lemma EmptyTrackingNumberValid()
    ensures TrackingNumberValid("")
  {
    forall j | 0 <= j < |InvalidSequences|
      ensures !IsSubstring(InvalidSequences[j], "")
    {
      assert |InvalidSequences[j]| > 0;
    }
  }

  // ---------------------------------------------------------------------
  // getPackage

  /** The record `getPackage` hands back. */
  datatype Package = Package(location: string, dateOfArrival: string)

  const Dover := Package("Dover, USA", "11/10/2025")
  const Boston := Package("Boston, USA", "1/2/3000")
  const PackageData: seq<Package> := [Dover, Boston]

  /** The characters `str.split()` separates words at, restricted to ASCII:
      space, tab, line feed, vertical tab, form feed, carriage return and the
      four information separators. */
  predicate IsSpace(c: char)
  {
    c == ' ' || 9 <= c as int <= 13 || 28 <= c as int <= 31
  }

  predicate NoSpace(w: string)
  {
    forall c :: c in w ==> !IsSpace(c)
  }

  /** `str.split()` with no separator, with the word read so far held in
      `word`: runs of whitespace separate words, and no word is empty. */
  function SplitFrom(s: string, word: string): (words: seq<string>)
    requires NoSpace(word)
    ensures forall w :: w in words ==> w != "" && NoSpace(w)
    decreases |s|
  {
    if s == [] then
      if word == "" then [] else [word]
    else if IsSpace(s[0]) then
      (if word == "" then [] else [word]) + SplitFrom(s[1..], "")
    else
      SplitFrom(s[1..], word + [s[0]])
  }

  function Split(s: string): seq<string>
  {
    SplitFrom(s, "")
  }

  lemma {:induction false} SplitFromBlank(s: string, word: string)
    requires NoSpace(word)
    requires forall c :: c in s ==> IsSpace(c)
    ensures SplitFrom(s, word) == if word == "" then [] else [word]
    decreases |s|
  {
    if s != [] {
      assert s[0] in s;
      assert forall c :: c in s[1..] ==> c in s;
      SplitFromBlank(s[1..], "");
    }
  }

  /** A string of whitespace only, the empty one included, has no words. */
  lemma SplitBlank(s: string)
    requires forall c :: c in s ==> IsSpace(c)
    ensures Split(s) == []
  {
    SplitFromBlank(s, "");
  }

  lemma {:induction false} SplitFromWord(s: string, word: string)
    requires NoSpace(word) && NoSpace(s)
    requires word + s != ""
    ensures SplitFrom(s, word) == [word + s]
    decreases |s|
  {
    if s != [] {
      assert s[0] in s;
      assert forall c :: c in s[1..] ==> c in s;
      assert forall c :: c in word + [s[0]] ==> c in word || c == s[0];
      assert (word + [s[0]]) + s[1..] == word + s;
      SplitFromWord(s[1..], word + [s[0]]);
    } else {
      assert word + s == word;
    }
  }

  /** A non-empty string without whitespace is one word. */
  lemma SplitWord(w: string)
    requires w != "" && NoSpace(w)
    ensures Split(w) == [w]
  {
    SplitFromWord(w, "");
    assert "" + w == w;
  }

  lemma {:induction false} SplitFromAtSpace(a: string, c: char, b: string, word: string)
    requires NoSpace(word) && IsSpace(c)
    ensures SplitFrom(a + [c] + b, word) == SplitFrom(a, word) + SplitFrom(b, "")
    decreases |a|
  {
    var s := a + [c] + b;
    if a == [] {
      assert s == [c] + b && s[1..] == b;
    } else {
      assert s[0] == a[0] && s[1..] == a[1..] + [c] + b;
      if IsSpace(a[0]) {
        SplitFromAtSpace(a[1..], c, b, "");
      } else {
        assert forall x :: x in word + [a[0]] ==> x in word || x == a[0];
        SplitFromAtSpace(a[1..], c, b, word + [a[0]]);
      }
    }
  }

  /** A whitespace character always ends a word: the words of `a`, a space,
      then `b` are the words of `a` followed by the words of `b`. */
  lemma SplitAtSpace(a: string, c: char, b: string)
    requires IsSpace(c)
    ensures Split(a + [c] + b) == Split(a) + Split(b)
  {
    SplitFromAtSpace(a, c, b, "");
  }

  /** The two strings have a whitespace-separated word in common. */
  predicate ShareWord(user: string, num: string)
  {
    exists w :: w in Split(user) && w in Split(num)
  }

  /** The record `getPackage` settles on: Boston when a word of `user` is
      also a word of `num`, Dover otherwise. */
  function PackageFor(user: string, num: string): Package
  {
    if ShareWord(user, num) then PackageData[1] else PackageData[0]
  }

  method GetPackage(user: string, num: string) returns (package: Package)
    ensures package == PackageFor(user, num)
    ensures package == Dover || package == Boston
  {
    var userChars := Split(user);
    var numChars := Split(num);
    package := PackageData[0];
    for k := 0 to |userChars|
      invariant package == if exists w :: w in userChars[..k] && w in numChars
                           then PackageData[1] else PackageData[0]
    {
      assert userChars[..k + 1] == userChars[..k] + [userChars[k]];
      if userChars[k] in numChars {
        package := PackageData[1];
      }
    }
    assert userChars[..|userChars|] == userChars;
  }

  /** Swapping the two arguments never changes the record. */
  lemma PackageForSymmetric(user: string, num: string)
    ensures PackageFor(user, num) == PackageFor(num, user)
  {
  }

  /** A user that is empty or all whitespace has no words, so gets Dover. */
  lemma BlankUserGetsDover(user: string, num: string)
    requires forall c :: c in user ==> IsSpace(c)
    ensures PackageFor(user, num) == Dover
  {
    SplitBlank(user);
  }

  /** A single word given as both arguments gets Boston. */
  lemma SameWordGetsBoston(w: string)
    requires w != "" && NoSpace(w)
    ensures PackageFor(w, w) == Boston
  {
    SplitWord(w);
    assert w in Split(w);
  }
}
