/** The key-coded text block shared by ErrorResponse and NoticeResponse: a
    run of (one-byte code, NUL-terminated string) pairs closed by one more NUL.
    It decodes to a map from code byte to string bytes. This is the reading
    of `errorResponse` and `noticeResponse` in lib/message_parser.js. */
module KeyCoded {
  import opened Results
  import opened Bytes

  type Fields = map<byte, bytes>

  /** Reference reading of a block from a position where a code byte is
      expected: take the code, take the string up to the next NUL, record it
      (overwriting an earlier entry under the same code) and go on after the
      NUL. Bytes left over without a NUL after them add nothing; in particular
      the closing NUL is read as a code with no string and adds nothing. */
  function ScanFields(s: bytes, acc: Fields): (r: Fields)
    ensures acc.Keys <= r.Keys
    decreases |s|
  {
    if |s| == 0 then acc
    else match FindNul(s, 1)
      case None => acc
      case Some(j) => ScanFields(s[j + 1..], acc[s[0] := s[1..j]])
  }

  /** Every code the scan adds is a byte of the block. */
  lemma {:induction false} ScanKeysFromBlock(s: bytes, acc: Fields)
    ensures forall c :: c in ScanFields(s, acc) ==> c in acc || c in s
    decreases |s|
  {
    if |s| > 0 && FindNul(s, 1).Some? {
      var j := FindNul(s, 1).value;
      ScanKeysFromBlock(s[j + 1..], acc[s[0] := s[1..j]]);
      assert forall c :: c in s[j + 1..] ==> c in s;
    }
  }

  /** Every entry the scan adds is a whole string: it holds no NUL. Entries
      already present are either kept or overwritten by such a string. */
  lemma {:induction false} ScanValuesNulFree(s: bytes, acc: Fields)
    ensures forall c :: c in ScanFields(s, acc) ==>
              (c in acc && ScanFields(s, acc)[c] == acc[c]) || NulFree(ScanFields(s, acc)[c])
    decreases |s|
  {
    if |s| > 0 && FindNul(s, 1).Some? {
      var j := FindNul(s, 1).value;
      FindNulSpec(s, 1);
      assert NulFree(s[1..j]);
      ScanValuesNulFree(s[j + 1..], acc[s[0] := s[1..j]]);
    }
  }

  /** The fields of a whole block. */
  function DecodeFields(s: bytes): Fields {
    ScanFields(s, map[])
  }

  /** Every code of the decoded block is a byte of the block, and every
      value is a string without NUL. */
  lemma DecodedFieldsFromBlock(s: bytes)
    ensures forall c :: c in DecodeFields(s) ==> c in s && NulFree(DecodeFields(s)[c])
  {
    ScanValuesNulFree(s, map[]);
    ScanKeysFromBlock(s, map[]);
  }

  /** The loop of the parser, a two-state scanner over the payload: outside a
      string the byte is a code; inside a string a NUL closes it and records
      the string under the current code. The branch for `beginString == ptr`
      outside a string is kept as written; it is never taken. */
  method DecodeBlock(data: bytes) returns (messages: Fields)
    ensures messages == DecodeFields(data)
  {
    messages := map[];
    var ptr := 0;
    var inString := false;
    var beginString := 1;
    var code: byte := 0;
    while ptr < |data|
      invariant 0 <= ptr <= |data|
      invariant !inString ==> beginString == ptr + 1
      invariant !inString ==> ScanFields(data[ptr..], messages) == DecodeFields(data)
      invariant inString ==> 1 <= beginString <= ptr && data[beginString - 1] == code
      invariant inString ==> FindNul(data, beginString) == FindNul(data, ptr)
      invariant inString ==> ScanFields(data[beginString - 1..], messages) == DecodeFields(data)
      decreases |data| - ptr
    {
      if inString {
        if data[ptr] == 0 {
          ScanAtNul(data, beginString, ptr, ptr + 1, code, messages);
          inString := false;
          messages := messages[code := data[beginString..ptr]];
          beginString := ptr + 2;
          assert ScanFields(data[ptr + 1..], messages) == DecodeFields(data);
        }
      } else {
        if beginString == ptr {
          inString := true;
        } else {
          code := data[ptr];
          inString := true;
        }
      }
      ptr := ptr + 1;
    }
    if inString {
      ScanUnterminated(data, beginString, messages);
    } else {
      assert data[ptr..] == [];
    }
  }

  /** Closing a string at the NUL in position p records it under the code
      just before it and resumes after the NUL. */
  lemma ScanAtNul(data: bytes, b: nat, p: nat, next: nat, code: byte, m: Fields)
    requires 1 <= b <= p < |data| && next == p + 1
    requires data[b - 1] == code
    requires FindNul(data, b) == Some(p)
    ensures ScanFields(data[b - 1..], m) == ScanFields(data[next..], m[code := data[b..p]])
  {
    FindNulSpec(data, b);
    var s := data[b - 1..];
    forall k | 1 <= k < p - b + 1 ensures s[k] != 0 {
      assert s[k] == data[b - 1 + k];
    }
    FindNulFirst(s, 1, p - b + 1);
    assert s[1..p - b + 1] == data[b..p];
    assert s[p - b + 2..] == data[next..];
  }

  /** A string still open at the end of the payload records nothing. */
  lemma ScanUnterminated(data: bytes, b: nat, m: Fields)
    requires 1 <= b <= |data|
    requires FindNul(data, b).None?
    ensures ScanFields(data[b - 1..], m) == m
  {
    FindNulSpec(data, b);
    var s := data[b - 1..];
    forall k | 1 <= k < |s| ensures s[k] != 0 {
      assert s[k] == data[b - 1 + k];
    }
    FindNulSpec(s, 1);
  }

  /** One field as the server writes it. */
  datatype Pair = Pair(code: byte, value: bytes)

  predicate WellFormedPairs(ps: seq<Pair>) {
    forall i :: 0 <= i < |ps| ==> NulFree(ps[i].value)
  }

  /** The wire form of the pairs, without the closing NUL. */
  function EncodePairs(ps: seq<Pair>): bytes {
    if |ps| == 0 then [] else [ps[0].code] + ps[0].value + [0] + EncodePairs(ps[1..])
  }

  /** The wire form of a whole block: the pairs, then the closing NUL. */
  function EncodeBlock(ps: seq<Pair>): bytes {
    EncodePairs(ps) + [0]
  }

  /** Recording the pairs in order into `acc`; a later pair overwrites an
      earlier one with the same code. */
  function Assign(ps: seq<Pair>, acc: Fields): Fields {
    if |ps| == 0 then acc else Assign(ps[1..], acc[ps[0].code := ps[0].value])
  }

  /** Reading one encoded pair records it and goes on after its NUL. */
  lemma ScanPair(c: byte, v: bytes, rest: bytes, acc: Fields)
    requires NulFree(v)
    ensures ScanFields([c] + v + [0] + rest, acc) == ScanFields(rest, acc[c := v])
  {
    var s := [c] + v + [0] + rest;
    var j := |v| + 1;
    forall k | 1 <= k < j ensures s[k] != 0 {
      assert s[k] == v[k - 1];
    }
    FindNulFirst(s, 1, j);
    assert s[1..j] == v;
    assert s[j + 1..] == rest;
  }

  /** Reading encoded pairs records each of them in order, then goes on with
      what follows. */
  lemma {:induction false} ScanEncoded(ps: seq<Pair>, tail: bytes, acc: Fields)
    requires WellFormedPairs(ps)
    ensures ScanFields(EncodePairs(ps) + tail, acc) == ScanFields(tail, Assign(ps, acc))
    decreases |ps|
  {
    if |ps| == 0 {
      assert EncodePairs(ps) + tail == tail;
    } else {
      var p := ps[0];
      var rest := EncodePairs(ps[1..]) + tail;
      assert EncodePairs(ps) + tail == [p.code] + p.value + [0] + rest;
      ScanPair(p.code, p.value, rest, acc);
      ScanEncoded(ps[1..], tail, acc[p.code := p.value]);
    }
  }

  /** Decoding the wire form of a block gives the pairs recorded in order:
      the closing NUL adds no entry, unknown codes are kept, empty strings are
      kept, and a later duplicate code overwrites an earlier one. */
  lemma BlockRoundTrip(ps: seq<Pair>)
    requires WellFormedPairs(ps)
    ensures DecodeFields(EncodeBlock(ps)) == Assign(ps, map[])
  {
    ScanEncoded(ps, [0], map[]);
  }

  /** The keys recorded are exactly the codes of the pairs. */
  lemma {:induction false} AssignKeys(ps: seq<Pair>, acc: Fields)
    ensures Assign(ps, acc).Keys == acc.Keys + set i | 0 <= i < |ps| :: ps[i].code
    decreases |ps|
  {
    if |ps| > 0 {
      AssignKeys(ps[1..], acc[ps[0].code := ps[0].value]);
      var codes := set i | 0 <= i < |ps| :: ps[i].code;
      var later := set i | 0 <= i < |ps[1..]| :: ps[1..][i].code;
      assert codes == {ps[0].code} + later by {
        forall c | c in codes ensures c in {ps[0].code} + later {
          var i :| 0 <= i < |ps| && ps[i].code == c;
          if i > 0 {
            assert ps[1..][i - 1].code == c;
          }
        }
      }
    }
  }

  /** The value recorded under a code is the value of the last pair with that
      code. */
  lemma {:induction false} AssignLastWins(ps: seq<Pair>, acc: Fields, i: nat)
    requires i < |ps|
    requires forall k :: i < k < |ps| ==> ps[k].code != ps[i].code
    ensures ps[i].code in Assign(ps, acc) && Assign(ps, acc)[ps[i].code] == ps[i].value
    decreases |ps|
  {
    var acc' := acc[ps[0].code := ps[0].value];
    if i == 0 {
      AssignUntouched(ps[1..], acc', ps[0].code);
    } else {
      AssignLastWins(ps[1..], acc', i - 1);
    }
  }

  /** A code that no pair carries keeps the value it had. */
  lemma {:induction false} AssignUntouched(ps: seq<Pair>, acc: Fields, c: byte)
    requires c in acc
    requires forall k :: 0 <= k < |ps| ==> ps[k].code != c
    ensures c in Assign(ps, acc) && Assign(ps, acc)[c] == acc[c]
    decreases |ps|
  {
    if |ps| > 0 {
      AssignUntouched(ps[1..], acc[ps[0].code := ps[0].value], c);
    }
  }
}
