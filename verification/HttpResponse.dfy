/** The head of an HTTP response, as the mango client checks it. */
module HttpResponse {
  import opened Bytes
  import opened HexText

  const SPACE: byte := 32
  const END_OF_HEAD: bytes := [13, 10, 13, 10]

  predicate IsDecimal(c: byte) {
    48 <= c <= 57
  }

  /** The head of a response ends at `i`. */
  predicate EndsAt(text: bytes, i: nat) {
    i + 4 <= |text| && text[i..i + 4] == END_OF_HEAD
  }

  /** The value of the digits text[j..j + n]. */
  function DecimalAt(text: bytes, j: nat, n: nat): nat
    requires j + n <= |text| && forall k :: j <= k < j + n ==> IsDecimal(text[k])
  {
    if n == 0 then 0
    else
      assert IsDecimal(text[j + n - 1]);
      DecimalAt(text, j, n - 1) * 10 + (text[j + n - 1] as int - 48)
  }

  /** The head says `code`: after its first spaces, text[i..j], come three digits and a space. */
  predicate StatusLine(head: bytes, i: nat, j: nat, code: nat) {
    && i < j && j + 3 < |head|
    && (forall k :: 0 <= k < i ==> head[k] != SPACE) && (forall k :: i <= k < j ==> head[k] == SPACE)
    && (forall k :: j <= k < j + 3 ==> IsDecimal(head[k])) && head[j + 3] == SPACE
    && code == DecimalAt(head, j, 3) && 100 <= code < 600
  }

  ghost predicate HasStatus(head: bytes, code: nat) {
    exists i: nat, j: nat :: StatusLine(head, i, j, code)
  }

  ghost predicate NoStatus(head: bytes) {
    forall code: nat :: !HasStatus(head, code)
  }

  /** mangoHelper_httpReponseVerify on the text in the buffer: 0 when the head is not all there, its status when
      it has one, and an error otherwise. `end` is where the body begins: the head is cut by two bytes, and the
      caller adds two to its length. */
  method Verify(text: bytes) returns (retval: int, end: nat)
    requires forall i :: 0 <= i < |text| ==> text[i] != 0
    ensures retval == 0 <==> forall i: nat :: !EndsAt(text, i)
    ensures retval != 0 ==> 4 <= end <= |text| && EndsAt(text, end - 4) && forall i: nat :: i < end - 4 ==> !EndsAt(text, i)
    ensures retval > 0 ==> 100 <= retval < 600 && HasStatus(text[..end - 2], retval)
    ensures retval < 0 ==> NoStatus(text[..end - 2])
  {
    var at := 0;
    while at + 4 <= |text| && text[at..at + 4] != END_OF_HEAD
      invariant forall i: nat :: i < at ==> !EndsAt(text, i)
      decreases |text| - at
    {
      at := at + 1;
    }
    if at + 4 > |text| {
      return 0, 0;
    }
    assert EndsAt(text, at);
    end := at + 4;
    retval := ReadStatus(text[..at + 2]);
  }

  /** The status line: the digits behind the first spaces. */
  method ReadStatus(head: bytes) returns (retval: int)
    requires forall i :: 0 <= i < |head| ==> head[i] != 0
    ensures retval != 0
    ensures retval > 0 ==> 100 <= retval < 600 && HasStatus(head, retval)
    ensures retval < 0 ==> NoStatus(head)
  {
    var i := 0;
    while i < |head| && head[i] != SPACE
      invariant i <= |head| && forall k :: 0 <= k < i ==> head[k] != SPACE
    {
      i := i + 1;
    }
    if i == |head| {
      return -1;
    }
    var j := i;
    while At(head, j) == SPACE
      invariant i <= j <= |head| && forall k :: i <= k < j ==> head[k] == SPACE
      decreases |head| - j
    {
      j := j + 1;
    }
    forall a: nat, b: nat, code: nat | StatusLine(head, a, b, code) ensures a == i && b == j {
      Positions(head, a, b, code, i, j);
    }
    var n: nat, statusCode: nat := 0, 0;
    while n < 4 && IsDecimal(At(head, j + n))
      invariant n <= 4 && j + n <= |head|
      invariant forall k :: j <= k < j + n ==> IsDecimal(head[k])
      invariant statusCode == DecimalAt(head, j, n)
    {
      statusCode := statusCode * 10 + (head[j + n] as int - 48);
      n := n + 1;
    }
    if n == 4 || At(head, j + n) != SPACE || n == 0 || statusCode < 100 || statusCode >= 600 {
      Refused(head, i, j, n);
      return -1;
    }
    Digits3(head, j, n);
    assert StatusLine(head, i, j, statusCode);
    return statusCode;
  }

  lemma Positions(head: bytes, a: nat, b: nat, code: nat, i: nat, j: nat)
    requires StatusLine(head, a, b, code) && i < j <= |head| && At(head, j) != SPACE
    requires (forall k :: 0 <= k < i ==> head[k] != SPACE) && (forall k :: i <= k < j ==> head[k] == SPACE)
    ensures a == i && b == j
  {
    assert head[a] == SPACE && head[i] == SPACE;
    assert IsDecimal(head[b]);
  }

  /** Fewer than three digits are less than a hundred. */
  lemma Digits3(head: bytes, j: nat, n: nat)
    requires n <= 3 && j + n <= |head| && forall k :: j <= k < j + n ==> IsDecimal(head[k])
    ensures n < 3 ==> DecimalAt(head, j, n) < 100
  {
    if n > 0 {
      assert DecimalAt(head, j, 1) == head[j] as int - 48;
    }
  }

  lemma Refused(head: bytes, i: nat, j: nat, n: nat)
    requires n <= 4 && j + n <= |head| && forall k :: j <= k < j + n ==> IsDecimal(head[k])
    requires n == 4 || !IsDecimal(At(head, j + n))
    requires n == 4 || At(head, j + n) != SPACE || n == 0 || DecimalAt(head, j, n) < 100 || DecimalAt(head, j, n) >= 600
    ensures forall code: nat :: !StatusLine(head, i, j, code)
  {
    forall code: nat | StatusLine(head, i, j, code) ensures n == 3 {
      assert IsDecimal(head[j]) && IsDecimal(head[j + 1]) && IsDecimal(head[j + 2]) && !IsDecimal(head[j + 3]);
    }
  }
}
