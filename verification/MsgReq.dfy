/** Message numbers: a decimal string that is incremented in place, and drawn at random
    again when it has run out. The random source is a parameter. */
module MsgReq {
  import opened Bytes
  import opened Decimals

  predicate Nines(s: Bytes) {
    forall i :: 0 <= i < |s| ==> s[i] == '9'
  }

  /** The increment, digit by digit from the right. */
  function Next(s: Bytes): Bytes
    requires Digits(s)
  {
    if s == [] then []
    else
      var init, last := s[..|s| - 1], s[|s| - 1];
      if last == '9' then Next(init) + ['0'] else init + [(last as int + 1) as char]
  }

  lemma {:induction false} NextIsSuccessor(s: Bytes)
    requires Digits(s) && !Nines(s)
    ensures |Next(s)| == |s| && Digits(Next(s)) && Value(Next(s)) == Value(s) + 1
  {
    var init, last := s[..|s| - 1], s[|s| - 1];
    var t := Next(s);
    if last == '9' {
      NextIsSuccessor(init);
      assert t[..|s| - 1] == Next(init);
    } else {
      assert t[..|s| - 1] == init;
    }
  }

  lemma {:induction false} ValueBound(s: Bytes)
    requires Digits(s)
    ensures Value(s) < Power10(|s|)
    ensures Nines(s) <==> Value(s) == Power10(|s|) - 1
  {
    if s != [] {
      ValueBound(s[..|s| - 1]);
      assert Nines(s) <==> Nines(s[..|s| - 1]) && s[|s| - 1] == '9';
    }
  }

  /** The carry: the last digit that is not a nine grows, the nines behind it become zeros. */
  lemma {:induction false} CarryIsNext(s: Bytes, i: nat, t: Bytes)
    requires Digits(s) && i < |s| == |t|
    requires s[i] != '9' && forall k :: i < k < |s| ==> s[k] == '9'
    requires t[..i] == s[..i] && t[i] as int == s[i] as int + 1 && forall k :: i < k < |s| ==> t[k] == '0'
    ensures t == Next(s)
  {
    var n := |s| - 1;
    if i < n {
      var s', t' := s[..n], t[..n];
      assert t'[..i] == t[..i] && s'[..i] == s[..i] && t'[i] == t[i] && s'[i] == s[i];
      assert forall k :: i < k < n ==> s'[k] == s[k] && t'[k] == t[k];
      CarryIsNext(s', i, t');
    }
    assert t == t[..n] + [t[n]];
  }

  /** The last digit of the byte as a number. */
  function DigitOf(b: Byte): (d: Byte)
    ensures IsDigit(d) && var text := Decimal(b as int); d == text[|text| - 1]
  {
    (b as int % 10 + '0' as int) as char
  }

  /** `MsgReqUtil` on one thread. */
  class MsgReqUtil {
    var number: array<Byte>
    var max: Bytes

    ghost predicate Valid()
      reads this, number
    {
      Digits(number[..]) && Nines(max) && |max| == number.Length
    }

    constructor ()
      ensures Valid() && fresh(number) && number.Length == 0
    {
      number := new Byte[0];
      max := [];
    }

    /** `random` is what reading the random device yielded. */
    method GenMsgNumber(len: nat, random: Bytes) returns (r: Bytes)
      requires Valid()
      modifies this, number
      ensures Valid() && (number == old(number) || fresh(number))
      ensures if !Nines(old(number[..])) then
                number == old(number) && r == number[..] == Next(old(number[..]))
              else if |random| != len then r == [] && number[..] == old(number[..])
              else r == number[..] && |r| == len && forall i :: 0 <= i < len ==> r[i] == DigitOf(random[i])
    {
      if number.Length == 0 || number[..] == max {
        if |random| != len {
          return [];
        }
        var res := new Byte[len](_ => '0');
        max := "";
        for i := 0 to len
          invariant |max| == i && Nines(max) && fresh(res)
          invariant forall k :: 0 <= k < i ==> res[k] == DigitOf(random[k])
        {
          res[i] := DigitOf(random[i]);
          max := max + ['9'];
        }
        number := res;
      } else {
        Increment();
      }
      r := number[..];
    }

    /** The carry loop stops inside the string because not all digits are nines. */
    method Increment()
      requires Valid() && number[..] != max
      modifies number
      ensures Valid() && number[..] == Next(old(number[..]))
    {
      ghost var was := number[..];
      NotNines(was, max);
      var n := number.Length;
      var i := n - 1;
      while number[i] == '9'
        invariant 0 <= i < n
        decreases i
        invariant number[..] == was && forall k :: i < k < n ==> was[k] == '9'
      {
        NineIsNotAll(was, i);
        i := i - 1;
      }
      number[i] := (number[i] as int + 1) as char;
      for j := i + 1 to n
        invariant number[..i] == was[..i] && number[i] as int == was[i] as int + 1
        invariant forall k :: i < k < j ==> number[k] == '0'
        invariant forall k :: j <= k < n ==> number[k] == was[k]
      {
        number[j] := '0';
      }
      CarryIsNext(was, i, number[..]);
      NextIsSuccessor(was);
    }
  }

  lemma NotNines(s: Bytes, max: Bytes)
    requires Nines(max) && |s| == |max| && s != max
    ensures |s| > 0 && !Nines(s)
  {
  }

  lemma NineIsNotAll(s: Bytes, i: nat)
    requires i < |s| && !Nines(s) && forall k :: i <= k < |s| ==> s[k] == '9'
    ensures i > 0
  {
  }

  // ----- a run between two draws -----

  /** The call that answers `b` after `a` did not have to draw. */
  predicate Succeeds(a: Bytes, b: Bytes) {
    Digits(a) && Digits(b) && !Nines(a) && b == Next(a)
  }

  /** The numbers handed out from a draw on: each is the successor of the one before. */
  predicate Follow(nums: seq<Bytes>) {
    && (forall i :: 0 <= i < |nums| ==> Digits(nums[i]))
    && forall i :: 0 <= i < |nums| - 1 ==> Succeeds(nums[i], nums[i + 1])
  }

  lemma {:induction false} Grows(nums: seq<Bytes>, i: nat, j: nat)
    requires Follow(nums) && i <= j < |nums|
    ensures |nums[j]| == |nums[i]| && Value(nums[j]) == Value(nums[i]) + (j - i)
  {
    hide Next, Value, Nines;
    if i < j {
      Grows(nums, i, j - 1);
      assert Succeeds(nums[j - 1], nums[j]);
      NextIsSuccessor(nums[j - 1]);
    }
  }

  /** All numbers between two draws differ, have the same length, and there are never more
      than the length allows. */
  lemma NumbersDistinct(nums: seq<Bytes>)
    requires Follow(nums) && nums != []
    ensures forall i, j :: 0 <= i < j < |nums| ==> nums[i] != nums[j] && |nums[i]| == |nums[j]|
    ensures |nums| <= Power10(|nums[0]|)
  {
    forall i, j | 0 <= i < j < |nums|
      ensures nums[i] != nums[j] && |nums[i]| == |nums[j]|
    {
      Grows(nums, i, j);
    }
    var last := |nums| - 1;
    Grows(nums, 0, last);
    ValueBound(nums[last]);
  }
}
