/** The responses and signals of the Crostini bridge, field by field, as a plain reader of the format finds them. */
module CrostiniMessages {
  import opened Sequences
  import opened Varint
  import opened Wire
  import opened WireReader
  import opened Crostini
  import CrostiniRuns

  lemma Reads(b: Bytes, fs: seq<Field>)
    requires ValidFields(fs) && b == Serialize(fs)
    ensures ReadFields(b) == Some(fs)
  {
    ReadSerialized(fs);
  }

  lemma AppendedTwice(num: nat, v: nat, num2: nat, v2: nat)
    ensures AppendUint64(AppendUint64([], num, v), num2, v2) == Serialize([VarintField(num, v), VarintField(num2, v2)])
  {
    hide Serialize, AppendUint64;
    SerializeNone();
    AppendsVarint([], num, v);
    assert [] + [VarintField(num, v)] == [VarintField(num, v)];
    AppendsVarint([VarintField(num, v)], num2, v2);
    assert [VarintField(num, v)] + [VarintField(num2, v2)] == [VarintField(num, v), VarintField(num2, v2)];
  }

  /** Success alone, as StopVm answers it, and success with status 1, as StartVm does. */
  lemma SuccessReads()
    ensures ReadFields(AppendBool([], 1, true)) == Some([VarintField(1, 1)])
    ensures ReadFields(EncodeStartVmResponse()) == Some([VarintField(1, 1), VarintField(4, 1)])
  {
    hide ReadFields, Serialize, AppendUint64, Encode;
    SerializeNone();
    AppendsBool([], 1, true);
    assert [] + [VarintField(1, 1)] == [VarintField(1, 1)];
    Reads(AppendBool([], 1, true), [VarintField(1, 1)]);
    AppendsVarint([VarintField(1, 1)], 4, 1);
    assert [VarintField(1, 1)] + [VarintField(4, 1)] == [VarintField(1, 1), VarintField(4, 1)];
    Reads(EncodeStartVmResponse(), [VarintField(1, 1), VarintField(4, 1)]);
  }

  /** The VM information: cid 4, type 1, status 1. */
  lemma VmInfoReads()
    ensures ReadFields(EncodeVmInfo()) == Some([VarintField(3, 4), VarintField(6, 1), VarintField(8, 1)])
  {
    hide ReadFields, Serialize, AppendUint64;
    var fs := [VarintField(3, 4), VarintField(6, 1)];
    AppendedTwice(3, 4, 6, 1);
    AppendsVarint(fs, 8, 1);
    assert fs + [VarintField(8, 1)] == [VarintField(3, 4), VarintField(6, 1), VarintField(8, 1)];
    Reads(EncodeVmInfo(), fs + [VarintField(8, 1)]);
  }

  lemma InfoShort()
    ensures |EncodeVmInfo()| == 6
  {
    InfoBytes();
  }

  /** GetVmInfo: the verdict, and the information on success only. */
  lemma GetVmInfoReads(success: bool)
    ensures ReadFields(EncodeGetVmInfoResponse(success))
            == Some(if success then [VarintField(1, 1), BytesField(2, EncodeVmInfo())] else [VarintField(1, 0)])
  {
    InfoShort();
    GetVmInfoFields(success);
    hide ReadFields, Serialize, EncodeGetVmInfoResponse, EncodeVmInfo;
    Reads(EncodeGetVmInfoResponse(success),
          if success then [VarintField(1, 1), BytesField(2, EncodeVmInfo())] else [VarintField(1, 0)]);
  }

  lemma VmReads(owner: Bytes)
    requires |owner| <= MESSAGE_LIMIT
    ensures ReadFields(EncodeVm(owner)) == Some(VmFieldsOf(owner))
  {
    hide *;
    VmFields(owner);
    VmFieldsValid(owner);
    Reads(EncodeVm(owner), VmFieldsOf(owner));
  }

  /** ListVms: success and one VM, named termina, of the owner, running. */
  lemma ListVmsReads(owner: Bytes)
    requires |owner| <= MESSAGE_LIMIT
    ensures ReadFields(EncodeListVmsResponse(owner)) == Some([VarintField(1, 1), BytesField(3, EncodeVm(owner))])
    ensures ReadFields(EncodeVm(owner))
            == Some([BytesField(1, Lit("termina")), BytesField(2, owner), BytesField(3, EncodeVmInfo()),
                     VarintField(4, 1)])
  {
    hide ReadFields, Serialize, EncodeListVmsResponse, EncodeVm, EncodeVmInfo, Lit;
    VmLength(owner);
    ListVmsFields(owner);
    Reads(EncodeListVmsResponse(owner), [VarintField(1, 1), BytesField(3, EncodeVm(owner))]);
    VmReads(owner);
  }

  /** VmStartedSignal: the VM id, of owner and name, and status 1. */
  lemma VmStartedReads(owner: Bytes)
    requires |owner| <= MESSAGE_LIMIT
    ensures ReadFields(EncodeVmStartedSignal(owner)) == Some([BytesField(1, EncodeVmId(owner)), VarintField(3, 1)])
    ensures ReadFields(EncodeVmId(owner)) == Some([BytesField(1, owner), BytesField(2, Lit("termina"))])
  {
    CrostiniRuns.VmIdFields(owner);
    CrostiniRuns.VmStartedFields(owner);
    hide ReadFields, Serialize, EncodeVmStartedSignal, EncodeVmId, Lit;
    Reads(EncodeVmStartedSignal(owner), [BytesField(1, EncodeVmId(owner)), VarintField(3, 1)]);
    Reads(EncodeVmId(owner), [BytesField(1, owner), BytesField(2, VM_NAME)]);
  }

  lemma ContainerFieldsValid(owner: Bytes)
    requires |owner| <= MESSAGE_LIMIT
    ensures ValidFields(CrostiniRuns.ContainerFields(owner))
  {
    hide Lit;
  }

  lemma ContainerReads(owner: Bytes)
    requires |owner| <= MESSAGE_LIMIT
    ensures ReadFields(EncodeContainerStarted(owner)) == Some(CrostiniRuns.ContainerFields(owner))
  {
    hide *;
    CrostiniRuns.ContainerStartedFields(owner);
    ContainerFieldsValid(owner);
    Reads(EncodeContainerStarted(owner), CrostiniRuns.ContainerFields(owner));
  }

  /** ContainerStarted: VM, container, owner, user, home directory, address and token. */
  lemma ContainerStartedReads(owner: Bytes)
    requires |owner| <= MESSAGE_LIMIT
    ensures ReadFields(EncodeContainerStarted(owner))
            == Some([BytesField(1, Lit("termina")), BytesField(2, Lit("penguin")), BytesField(3, owner),
                     BytesField(4, Lit("user")), BytesField(5, Lit("/home/user")), BytesField(6, Lit("127.0.0.1")),
                     BytesField(8, Lit("termina-penguin"))])
  {
    hide ReadFields, EncodeContainerStarted, Lit;
    ContainerReads(owner);
  }
}
