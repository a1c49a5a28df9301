/** An optional value, and lower-casing as far as ASCII goes. */
module Options {

  datatype Option<+T> = None | Some(value: T)

  function LowerChar(c: char): char {
    if 'A' <= c <= 'Z' then c - 'A' + 'a' else c
  }

  function Lower(s: string): (r: string)
    ensures |r| == |s|
  {
    seq(|s|, i requires 0 <= i < |s| => LowerChar(s[i]))
  }

  /** The letters of the two alphabets pair up, and nothing else moves. */
  lemma {:induction false} LowerIsCaseless(s: string)
    ensures forall i :: 0 <= i < |s| ==>
              var upper, lower := "ABCDEFGHIJKLMNOPQRSTUVWXYZ", "abcdefghijklmnopqrstuvwxyz";
              if s[i] in upper then exists k :: 0 <= k < 26 && upper[k] == s[i] && Lower(s)[i] == lower[k]
              else Lower(s)[i] == s[i]
    ensures Lower(Lower(s)) == Lower(s)
  {
    var upper, lower := "ABCDEFGHIJKLMNOPQRSTUVWXYZ", "abcdefghijklmnopqrstuvwxyz";
    Alphabets();
    forall i | 0 <= i < |s|
      ensures if s[i] in upper then exists k :: 0 <= k < 26 && upper[k] == s[i] && Lower(s)[i] == lower[k]
              else Lower(s)[i] == s[i]
    {
      if 'A' <= s[i] <= 'Z' {
        assert upper[(s[i] - 'A') as int] == s[i];
      }
    }
  }

  lemma {:induction false} Alphabets()
    ensures var upper, lower := "ABCDEFGHIJKLMNOPQRSTUVWXYZ", "abcdefghijklmnopqrstuvwxyz";
            |upper| == |lower| == 26 && forall k :: 0 <= k < 26 ==>
              upper[k] as int == 'A' as int + k && lower[k] as int == 'a' as int + k
  {
  }

  /** Whether a request to another system takes effect, and whether its caller is told it did. */
  datatype Write = Write(applied: bool, reported: bool)
}
