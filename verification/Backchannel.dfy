/**
 * A progress report on its way back: the reader of the sending side takes it out of its segment and passes
 * it on, and the writer applies it. Together they do what the channel's step for an arriving report says.
 */
module Backchannel {
  import opened Packet
  import opened Codecs
  import opened Windows
  import opened EndToEnd
  import opened Reader
  import opened Writer

  /** The segment that carries a report. */
  function Carrying(report: Progress): MessageSegment {
    MessageSegment(report.id, MessageProgress(report.head, report.bodies))
  }

  /** What the two tasks do with a segment that carries a report, once the writer gets round to the request. */
  method RelayReport(reader: ChannelReader, writer: ChannelWriter, report: Progress)
    requires reader.Valid() && writer.Valid()
    requires {writer, writer.disassembler} !! {reader as object} + reader.assembler.Repr
    requires writer.disassembler.packets.Values !! {reader as object} + reader.assembler.Repr
    modifies reader, reader.assembler.Repr
    modifies writer, writer.disassembler.packets.Values
    ensures reader.Valid() && writer.Valid()
    ensures reader.assembler.View() == Drain(reader.codec, old(reader.assembler.View())).0
    ensures writer.View() == Notices.Update(old(writer.View()), report.id, report.head, report.bodies)
  {
    hide Drain, Accept, Notices.Update;
    ProgressIsNotAccepted(reader.assembler.View(), Carrying(report));
    var _ := reader.Receive(Carrying(report), true);
    var request := reader.statusRequests[|reader.statusRequests| - 1];
    writer.HandleUpdateMessageStatus(request.id, request.head, request.bodies);
  }

  /** That is the channel's step, whatever the report claims. */
  lemma RelayIsReportArrives(c: Codec, s: System, outbox: Notices.Outbox, report: Progress)
    requires Valid(s.receiver.window) && outbox.sender == s.sender && Enabled(c, s, ReportArrives(report))
    ensures Perform(c, s, ReportArrives(report))
         == s.(sender := Notices.Update(outbox, report.id, report.head, report.bodies).sender)
    ensures forall w | Valid(w) :: Accept(w, Carrying(report)) == Some(w)
  {
    forall w | Valid(w) ensures Accept(w, Carrying(report)) == Some(w) {
      ProgressIsNotAccepted(w, Carrying(report));
    }
  }
}
