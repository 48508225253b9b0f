/** `NotificationService.enviarATodosLosUsuarios`: drop the unusable device tokens, cut the
    rest into batches of at most 500, send one multicast per batch and add up the counts the
    responses report. */
module NotificationService {
  import opened JsText

  /** The most tokens one multicast carries. */
  const BatchSize: nat := 500

  const NoDevicesText: string := "No hay dispositivos registrados"

  /** A token the filter keeps: present, truthy, and not empty once trimmed. */
  predicate IsUsableToken(t: Option<string>) {
    t.Some? && t.value != "" && Trim(t.value) != ""
  }

  /** The filter over the device tokens: the usable ones, in their order. */
  function ValidTokens(tokens: seq<Option<string>>): (valid: seq<string>)
    ensures |valid| <= |tokens|
    ensures forall t :: t in valid <==> Some(t) in tokens && !IsBlank(t)
    decreases |tokens|
  {
    if tokens == [] then []
    else
      var rest := ValidTokens(tokens[1..]);
      assert forall t :: Some(t) in tokens <==> Some(t) == tokens[0] || Some(t) in tokens[1..];
      if IsUsableToken(tokens[0]) then [tokens[0].value] + rest else rest
  }

  /** The filter keeps order: filtering a concatenation concatenates the filtered halves,
      and a single token is kept exactly when it is usable. With `ValidTokens([]) == []`
      this determines `ValidTokens` on every list. */
  lemma {:induction false} ValidTokensAppend(a: seq<Option<string>>, b: seq<Option<string>>)
    ensures ValidTokens(a + b) == ValidTokens(a) + ValidTokens(b)
    decreases |a|
  {
    if a != [] {
      assert (a + b)[1..] == a[1..] + b;
      ValidTokensAppend(a[1..], b);
    } else {
      assert a + b == b;
    }
  }

  lemma ValidTokensSingle(t: Option<string>)
    ensures ValidTokens([t]) == if IsUsableToken(t) then [t.value] else []
  {
    assert [t][1..] == [];
  }

  /** The reference partition: consecutive slices of `BatchSize`, the last one shorter. */
  function Chunks<T>(s: seq<T>): seq<seq<T>>
    decreases |s|
  {
    if |s| == 0 then []
    else if |s| <= BatchSize then [s]
    else [s[..BatchSize]] + Chunks(s[BatchSize..])
  }

  function Flatten<T>(parts: seq<seq<T>>): seq<T>
    decreases |parts|
  {
    if parts == [] then [] else parts[0] + Flatten(parts[1..])
  }

  /** Concatenating the batches in order gives back the tokens. */
  lemma {:induction false} FlattenChunks<T>(s: seq<T>)
    ensures Flatten(Chunks(s)) == s
    decreases |s|
  {
    if |s| > BatchSize {
      FlattenChunks(s[BatchSize..]);
      assert ([s[..BatchSize]] + Chunks(s[BatchSize..]))[1..] == Chunks(s[BatchSize..]);
      assert s == s[..BatchSize] + s[BatchSize..];
    } else if |s| > 0 {
      assert [s][1..] == [];
      assert s + [] == s;
    }
  }

  /** Every batch is non-empty and at most `BatchSize` long; all but the last are full;
      there are ceil(n / 500) of them. */
  lemma {:induction false} ChunksShape<T>(s: seq<T>)
    ensures forall i :: 0 <= i < |Chunks(s)| ==> 1 <= |Chunks(s)[i]| <= BatchSize
    ensures forall i :: 0 <= i < |Chunks(s)| - 1 ==> |Chunks(s)[i]| == BatchSize
    ensures |Chunks(s)| == (|s| + BatchSize - 1) / BatchSize
    decreases |s|
  {
    if |s| > BatchSize {
      var rest := Chunks(s[BatchSize..]);
      ChunksShape(s[BatchSize..]);
      assert Chunks(s) == [s[..BatchSize]] + rest;
      forall i | 1 <= i < |Chunks(s)| ensures Chunks(s)[i] == rest[i - 1] {
      }
    }
  }

  /** The smaller of `i` and `n`: where JavaScript's `slice` clamps an index. */
  function Clamp(i: nat, n: nat): (c: nat)
    ensures c <= n && c <= i && (c == i || c == n)
  {
    if i <= n then i else n
  }

  /** One step of the partition: the first batch is the clamped slice. */
  lemma ChunksStep<T>(s: seq<T>)
    requires |s| > 0
    ensures Chunks(s) == [s[..Clamp(BatchSize, |s|)]] + Chunks(s[Clamp(BatchSize, |s|)..])
  {
    if |s| <= BatchSize {
      assert s[..|s|] == s;
      assert s[|s|..] == [];
    }
  }

  /** `ChunksStep` for the suffix from `i`, with the slice bounds of the loop. */
  lemma ChunksStepAt<T>(s: seq<T>, i: nat)
    requires i < |s|
    ensures Chunks(s[i..]) == [s[i..Clamp(i + BatchSize, |s|)]] + Chunks(s[Clamp(i + BatchSize, |s|)..])
  {
    ChunksStep(s[i..]);
    assert s[i..][..Clamp(BatchSize, |s| - i)] == s[i..Clamp(i + BatchSize, |s|)];
    assert s[i..][Clamp(BatchSize, |s| - i)..] == s[Clamp(i + BatchSize, |s|)..];
  }

  /** The first loop: `i` steps by 500 from 0 while below the length, and each step appends
      the slice from `i` to `i + 500`, which `slice` clamps to the length. */
  method BatchTokens(valid: seq<string>) returns (batches: seq<seq<string>>)
    ensures batches == Chunks(valid)
  {
    batches := [];
    var i: nat := 0;
    while i < |valid|
      invariant batches + Chunks(valid[Clamp(i, |valid|)..]) == Chunks(valid)
      decreases |valid| - i
    {
      var end := Clamp(i + BatchSize, |valid|);
      ChunksStepAt(valid, i);
      batches := batches + [valid[i..end]];
      i := i + BatchSize;
    }
    assert valid[Clamp(i, |valid|)..] == [];
  }

  /** `successCount` and `failureCount` of a `sendMulticast` response. */
  datatype BatchResponse = BatchResponse(successCount: nat, failureCount: nat)

  /** How one `sendMulticast` call ends: a response, or a thrown error with its message. */
  datatype Reply = Responded(response: BatchResponse) | Threw(message: string)

  /** The result object: the totals and the responses in batch order, or an error. */
  datatype SendResult = Sent(totalSent: nat, totalFailed: nat, details: seq<BatchResponse>)
                      | SendFailed(error: string)

  /** The left fold from 0 that adds each response's `successCount`. */
  function TotalSuccess(rs: seq<BatchResponse>): (total: nat)
    ensures total == 0 <==> forall i :: 0 <= i < |rs| ==> rs[i].successCount == 0
    decreases |rs|
  {
    if rs == [] then 0 else TotalSuccess(rs[..|rs| - 1]) + rs[|rs| - 1].successCount
  }

  /** The left fold from 0 that adds each response's `failureCount`. */
  function TotalFailure(rs: seq<BatchResponse>): (total: nat)
    ensures total == 0 <==> forall i :: 0 <= i < |rs| ==> rs[i].failureCount == 0
    decreases |rs|
  {
    if rs == [] then 0 else TotalFailure(rs[..|rs| - 1]) + rs[|rs| - 1].failureCount
  }

  /** Batch `j` was answered with a response. */
  predicate Answered(multicast: (nat, seq<string>) -> Reply, batches: seq<seq<string>>, j: nat)
    requires j < |batches|
  {
    multicast(j, batches[j]).Responded?
  }

  /** `enviarATodosLosUsuarios(titulo, mensaje, fcmTokens)`. The `j`-th `sendMulticast`
      call, on batch `batches[j]`, ends as `multicast(j, batches[j])`; `sent` lists the
      batches handed to it, in call order. With no usable token nothing is sent. Otherwise
      the batches are sent in order until one call throws, which ends the operation with
      that error; when none throws, every batch was sent once and the totals are the sums
      over the responses, kept in batch order. */
  method SendToAllUsers(tokens: seq<Option<string>>, multicast: (nat, seq<string>) -> Reply)
    returns (r: SendResult, sent: seq<seq<string>>)
    ensures ValidTokens(tokens) == [] ==> r == SendFailed(NoDevicesText) && sent == []
    ensures var batches := Chunks(ValidTokens(tokens));
      && |sent| <= |batches|
      && sent == batches[..|sent|]
      && forall j :: 0 <= j < |sent| - 1 ==> Answered(multicast, batches, j)
    ensures var batches := Chunks(ValidTokens(tokens));
      (r.Sent? <==>
        ValidTokens(tokens) != [] && forall j :: 0 <= j < |batches| ==> Answered(multicast, batches, j))
    ensures var batches := Chunks(ValidTokens(tokens));
      r.Sent? ==>
        && sent == batches
        && |r.details| == |batches|
        && (forall j :: 0 <= j < |batches| ==>
              Answered(multicast, batches, j) && r.details[j] == multicast(j, batches[j]).response)
        && r.totalSent == TotalSuccess(r.details)
        && r.totalFailed == TotalFailure(r.details)
    ensures var batches := Chunks(ValidTokens(tokens));
      r.SendFailed? && ValidTokens(tokens) != [] ==>
        && |sent| >= 1
        && multicast(|sent| - 1, batches[|sent| - 1]) == Threw(r.error)
  {
    var valid := ValidTokens(tokens);
    sent := [];
    if |valid| == 0 {
      r := SendFailed(NoDevicesText);
      return;
    }
    var batches := BatchTokens(valid);
    var details: seq<BatchResponse> := [];
    var k := 0;
    while k < |batches|
      invariant 0 <= k <= |batches|
      invariant sent == batches[..k]
      invariant |details| == k
      invariant forall j :: 0 <= j < k ==>
        Answered(multicast, batches, j) && details[j] == multicast(j, batches[j]).response
    {
      var reply := multicast(k, batches[k]);
      sent := sent + [batches[k]];
      if reply.Threw? {
        r := SendFailed(reply.message);
        assert sent == batches[..k + 1];
        assert !Answered(multicast, batches, k);
        return;
      }
      details := details + [reply.response];
      k := k + 1;
    }
    assert sent == batches;
    r := Sent(TotalSuccess(details), TotalFailure(details), details);
  }

  /** Sum of the batch lengths. */
  function TotalLength(batches: seq<seq<string>>): nat
    decreases |batches|
  {
    if batches == [] then 0 else TotalLength(batches[..|batches| - 1]) + |batches[|batches| - 1]|
  }

  lemma {:induction false} TotalLengthFlatten(batches: seq<seq<string>>)
    ensures TotalLength(batches) == |Flatten(batches)|
    decreases |batches|
  {
    if batches != [] {
      var init := batches[..|batches| - 1];
      TotalLengthFlatten(init);
      FlattenAppend(init, [batches[|batches| - 1]]);
      assert batches == init + [batches[|batches| - 1]];
      assert [batches[|batches| - 1]][1..] == [];
    }
  }

  lemma {:induction false} FlattenAppend(p: seq<seq<string>>, q: seq<seq<string>>)
    ensures Flatten(p + q) == Flatten(p) + Flatten(q)
    decreases |p|
  {
    if p == [] {
      assert p + q == q;
    } else {
      assert (p + q)[1..] == p[1..] + q;
      FlattenAppend(p[1..], q);
    }
  }

  /** When each response accounts for every token of its batch, the two totals add up to
      the number of usable tokens. */
  lemma {:induction false} TotalsAccountForEveryToken(batches: seq<seq<string>>,
                                                    details: seq<BatchResponse>)
    requires |details| == |batches|
    requires forall j :: 0 <= j < |batches| ==>
      details[j].successCount + details[j].failureCount == |batches[j]|
    ensures TotalSuccess(details) + TotalFailure(details) == TotalLength(batches)
    decreases |batches|
  {
    if batches != [] {
      var n := |batches| - 1;
      TotalsAccountForEveryToken(batches[..n], details[..n]);
    }
  }

  /** A completed send to a valid token list: one call per batch, ceil(n / 500) calls, and
      (when the responses account for their batches) the totals cover every usable token. */
  lemma CompletedSendCoversTokens(tokens: seq<Option<string>>, r: SendResult)
    requires r.Sent? && |r.details| == |Chunks(ValidTokens(tokens))|
    requires forall j :: 0 <= j < |r.details| ==>
      r.details[j].successCount + r.details[j].failureCount == |Chunks(ValidTokens(tokens))[j]|
    requires r.totalSent == TotalSuccess(r.details) && r.totalFailed == TotalFailure(r.details)
    ensures |r.details| == (|ValidTokens(tokens)| + BatchSize - 1) / BatchSize
    ensures r.totalSent + r.totalFailed == |ValidTokens(tokens)|
  {
    var valid := ValidTokens(tokens);
    ChunksShape(valid);
    TotalsAccountForEveryToken(Chunks(valid), r.details);
    TotalLengthFlatten(Chunks(valid));
    FlattenChunks(valid);
  }
}
