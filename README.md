# ESP32 IoT demos: the sequential logic, modelled and proved

This project models the parts of the ESP32-IoT-Projects demos that hold behaviour of their own. The rest of those demos is calls into ESP-IDF and FreeRTOS. Every peripheral, driver and network answer is an input to the model: an error code, a level read from a pin, a byte received, a reply to a bus transaction.

- **Custom eFuse provisioning** (`efuse.dfy`):
  - CRC-16/CCITT-FALSE: polynomial 0x1021, initial value 0xFFFF, no reflection, no final XOR.
  - The 22-byte payload of serial number, hardware revision and feature flags.
  - The "already provisioned" check.
  - Idempotent programming against an OR-only eFuse store with batch begin, stage, commit and cancel.
- **OTA decision engine** (`ota.dfy`):
  - the HTTPS host extraction;
  - the maintenance window with wrap-around past midnight;
  - the two-sample button debounce and the cloud trigger rule;
  - one cycle of the decision loop, with its gates in order: request, window, battery, network, download, restart.
- **SPI NOR flash driver** (`spi_flash.dfy`):
  - opcode and 24-bit address framing;
  - slow, fast and bulk reads;
  - status polling, write enable, page program, buffer write split at page boundaries, sector erase.
  - The SPI bus is a log of the transactions sent and a script of the replies.
- **UART command console** (`uart_demo.dfy`): the `line_acc_t` accumulator, the bounded TX queue and the PING / VERSION / UPTIME dispatcher.
- **UART event console** (`uart_event.dfy`):
  - the CR/LF line accumulator that feeds every byte;
  - the echoing command handler;
  - the dispatch of UART driver events to the four error counters.
- **ESP-NOW node** (`espnow.dfy`):
  - MAC text parsing and formatting;
  - the 8-byte packet layout;
  - the receive filter and queue;
  - peer configuration and the sender's sequence numbering.
- **LEDC PWM** (`pwm.dfy`): duty validation, the raw duty computation and the early exits of `app_main`.
- **Wi-Fi scanner** (`wifi_scanner.dfy`): the RSSI and security labels, the scan with its 20-AP clamp, and the once-only initialisation.
- **Cooperative scheduling** (`scheduling.dfy`):
  - the timer's phase rotation;
  - the bounded event queue;
  - run-to-completion handling of the events;
  - the mutex-protected shared counter.
- **Event-group synchronisation** (`event_groups.dfy`): the event bits, `init_task`'s rules, `gpio_task`'s stability counter and the aggregator's all-bits test.
- **Power gating** (`power_gating.dfy`): the enable-pin polarity, `pg_init`, `pg_set_enabled` and `pg_get_config`.

`common.dfy` and `bytes.dfy` hold the shared vocabulary:
- ESP-IDF error codes;
- little-endian byte encodings;
- `%u` and `%02X` text;
- C strings.

How state is modelled:
- **Classes.** State the firmware mutates in place is a class whose methods carry `modifies` clauses and specify the new state: the eFuse store, the SPI bus, the line buffers, the queues, the counters, the GPIO levels.
- **Functions.** The logic those methods follow is stated as functions, and lemmas prove its properties.
- **Inputs.** I/O, clocks and driver calls are parameters.

## Model

| member | source | states |
|---|---|---|
| Common.Le16Decode | ESP32S3_Custom_Efuse_Gen_Demo/main/main.c:310-323 | decoding the little-endian bytes of a 16-bit value gives the value back |
| Common.Le16Encode | ESP32S3_Custom_Efuse_Gen_Demo/main/main.c:310-323 | any two bytes are the little-endian encoding of the value they decode to |
| Common.Le32Decode | ESP32S3_Custom_Efuse_Gen_Demo/main/main.c:310-323 | decoding the little-endian bytes of a 32-bit value gives the value back |
| Common.Le32Encode | ESP32S3_Custom_Efuse_Gen_Demo/main/main.c:310-323 | any four bytes are the little-endian encoding of the value they decode to |
| Common.DecimalRoundTrip | UART_Demo/main/main.c:190 | `%u` text is non-empty digits without a leading zero and reads back as the number |
| Common.U32DecimalLength | UART_Demo/main/main.c:188-190 | a 32-bit value prints in at most ten digits, so the uptime reply fits its 64-byte buffer |
| Common.CStr | UART_Demo/main/main.c:147 | the C string is the prefix of the buffer before the first NUL: it holds no NUL and is followed by one unless it is the whole buffer |
| Common.CStrOfPrefixNul | UART_Demo/main/main.c:121 | a buffer that starts with a text and a NUL holds that text as its C string |
| Efuse.Crc16CcittFalse | ESP32S3_Custom_Efuse_Gen_Demo/main/main.c:46-62 | the nested bit loop computes the byte-wise CRC of the whole buffer |
| Efuse.CrcAppend | ESP32S3_Custom_Efuse_Gen_Demo/main/main.c:50-59 | the CRC is incremental: feeding `a` then `b` equals feeding `a + b` |
| Efuse.CrcOfEmpty | ESP32S3_Custom_Efuse_Gen_Demo/main/main.c:48 | the CRC of no data is the initial value 0xFFFF (no final XOR) |
| Efuse.CrcCheckValue | ESP32S3_Custom_Efuse_Gen_Demo/main/main.c:46-62 | the CRC of ASCII "123456789" is 0x29B1, the catalogue check value of CRC-16/CCITT-FALSE |
| Efuse.CrcUnshiftShift | ESP32S3_Custom_Efuse_Gen_Demo/main/main.c:53-57 | one shift step can be undone, so it loses no information |
| Efuse.CrcFromInjective | ESP32S3_Custom_Efuse_Gen_Demo/main/main.c:50-59 | two different starting registers never give the same CRC over the same data |
| Efuse.CrcDetectsByteError | ESP32S3_Custom_Efuse_Gen_Demo/main/main.c:46-62 | changing any single byte of a message changes its CRC |
| Efuse.StrLen | ESP32S3_Custom_Efuse_Gen_Demo/main/main.c:261 | `strlen` is the index of the first NUL, or the whole length when there is none |
| Efuse.SerialBytes | ESP32S3_Custom_Efuse_Gen_Demo/main/main.c:261-265 | the serial field is exactly 16 bytes |
| Efuse.SerialBytesReadBack | ESP32S3_Custom_Efuse_Gen_Demo/main/main.c:258-265 | the field read back as a C string is the serial cut to 16 characters, zero padded |
| Efuse.PayloadLayout | ESP32S3_Custom_Efuse_Gen_Demo/main/main.c:113-121 | the payload is 22 bytes: serial at 0..15, hardware revision little-endian at 16..17, flags little-endian at 18..21; different fields give different payloads |
| Efuse.Burn | ESP32S3_Custom_Efuse_Gen_Demo/main/main.c:426-429 | burning ORs the staged bits in, so every bit already set stays set |
| Efuse.DesiredFieldsConsistent | ESP32S3_Custom_Efuse_Gen_Demo/main/main.c:258-282 | the desired fields carry the CRC of their own payload |
| Efuse.FirstErr | ESP32S3_Custom_Efuse_Gen_Demo/main/main.c:292-307 | a run of calls, each made only if the ones before succeeded, succeeds iff all succeed, and otherwise reports one of their errors |
| Efuse.Delta | ESP32S3_Custom_Efuse_Gen_Demo/main/main.c:354-379 | the delta has one byte per field byte |
| Efuse.DeltaOnlyNewBits | ESP32S3_Custom_Efuse_Gen_Demo/main/main.c:354-379 | a delta never restages a burned bit and never stages a bit that is not wanted |
| Efuse.DeltaCompletes | ESP32S3_Custom_Efuse_Gen_Demo/main/main.c:326-379 | with no conflict, current bytes OR delta are exactly the desired bytes |
| Efuse.NothingNewMeansEqual | ESP32S3_Custom_Efuse_Gen_Demo/main/main.c:381-384 | with no conflict and an all-zero delta the field already holds the desired bytes |
| Efuse.SelfDelta | ESP32S3_Custom_Efuse_Gen_Demo/main/main.c:326-384 | bytes never conflict with themselves and need nothing staged over themselves |
| Efuse.ConflictExample | ESP32S3_Custom_Efuse_Gen_Demo/main/main.c:326-379 | a burned 0xA0 cannot become 0x0F; going from 0x03 to 0x0F stages 0x0C |
| Efuse.ConflictExists | ESP32S3_Custom_Efuse_Gen_Demo/main/main.c:326-351 | the byte loop reports a conflict iff some byte has a set bit the desired byte lacks |
| Efuse.ComputeDelta | ESP32S3_Custom_Efuse_Gen_Demo/main/main.c:354-379 | the loop builds `desired & ~current` per byte and flags whether any byte is non-zero |
| Efuse.ProgramSpec | ESP32S3_Custom_Efuse_Gen_Demo/main/main.c:242-433 | every outcome keeps all bits already burned; any error leaves the store unchanged |
| Efuse.ProgramYieldsDesired | ESP32S3_Custom_Efuse_Gen_Demo/main/main.c:242-433 | a successful call on an unprovisioned device leaves exactly the desired bytes in all four fields |
| Efuse.ProgramIdempotent | ESP32S3_Custom_Efuse_Gen_Demo/main/main.c:242-433 | after a success, the same call succeeds again and writes nothing, whatever its batch begin, staging and commit would return, given that its field reads fail or succeed as the first call's did |
| Efuse.ProvisionedAfterProgram | ESP32S3_Custom_Efuse_Gen_Demo/main/main.c:149-194 | after a success a later provisioned check reports true exactly when its own four reads succeed, unless the desired CRC is 0x0000 |
| Efuse.ProvisionedIsNeverRewritten | ESP32S3_Custom_Efuse_Gen_Demo/main/main.c:251-254 | a device that looks provisioned gets ESP_OK and no write, even if it holds other values |
| Efuse.EfuseStore.constructor | ESP32S3_Custom_Efuse_Gen_Demo/main/main.c:11 | a store holding the given bits, with no batch open |
| Efuse.EfuseStore.ReadFieldBlob | ESP32S3_Custom_Efuse_Gen_Demo/main/main.c:292-307 | a read returns the field's burned bytes, or zeros when the read fails |
| Efuse.EfuseStore.BatchWriteBegin | ESP32S3_Custom_Efuse_Gen_Demo/main/main.c:387-390 | a batch opens, with nothing staged, only when begin succeeds; nothing is burned |
| Efuse.EfuseStore.WriteFieldBlob | ESP32S3_Custom_Efuse_Gen_Demo/main/main.c:393-423 | a successful stage ORs the bits into that field's pending writes; nothing is burned |
| Efuse.EfuseStore.BatchWriteCommit | ESP32S3_Custom_Efuse_Gen_Demo/main/main.c:426-429 | a successful commit burns every staged bit, a failed one burns nothing; no set bit is lost and the batch is closed |
| Efuse.EfuseStore.BatchWriteCancel | ESP32S3_Custom_Efuse_Gen_Demo/main/main.c:393-423 | cancel drops the pending writes and burns nothing |
| Efuse.PayloadCrc | ESP32S3_Custom_Efuse_Gen_Demo/main/main.c:122 | the loop over the payload buffer computes its CRC |
| Efuse.IsProvisioned | ESP32S3_Custom_Efuse_Gen_Demo/main/main.c:149-194 | true iff the check's four reads succeed and the stored CRC is non-zero and matches the recomputed one; the out-flag equals the result |
| Efuse.ReadCurrent | ESP32S3_Custom_Efuse_Gen_Demo/main/main.c:292-323 | the four reads in field order stop at the first error; on success they return the burned fields |
| Efuse.StageField | ESP32S3_Custom_Efuse_Gen_Demo/main/main.c:393-423 | a field is staged only when it has new bits; a staging error cancels the batch |
| Efuse.StageDeltas | ESP32S3_Custom_Efuse_Gen_Demo/main/main.c:393-423 | fields with new bits are staged in order; the first error cancels the batch and is returned |
| Efuse.StageAndCommit | ESP32S3_Custom_Efuse_Gen_Demo/main/main.c:387-429 | begin, stage, commit with the first error returned; the store gains the deltas only on success and the batch ends closed |
| Efuse.ProgramCustomFields | ESP32S3_Custom_Efuse_Gen_Demo/main/main.c:242-433 | the result and the new store are those of `ProgramSpec`, and no batch is left open |
| Ota.FindFirst | ESP32C6_Secure_Boot_Https_Ota_Ref/main/ota_manager.c:38-40 | `strstr`: the first position where the pattern occurs, or none when it occurs nowhere |
| Ota.HttpsHost | ESP32C6_Secure_Boot_Https_Ota_Ref/main/ota_manager.c:35-53 | an extracted host is non-empty, shorter than the buffer, free of '/' and follows an occurrence of "https://" |
| Ota.NoSchemeNoHost | ESP32C6_Secure_Boot_Https_Ota_Ref/main/ota_manager.c:38-40 | a URL without "https://" anywhere has no host |
| Ota.HostOfUrl | ESP32C6_Secure_Boot_Https_Ota_Ref/main/ota_manager.c:38-52 | after the first "https://", anywhere in the URL, the text up to '/' or the end is extracted iff it is non-empty and shorter than the buffer |
| Ota.HostBufferLimit | ESP32C6_Secure_Boot_Https_Ota_Ref/main/ota_manager.c:200-203 | with the 128-byte buffer a 127-character host fits and a 128-character one does not |
| Ota.ParseHttpsHost | ESP32C6_Secure_Boot_Https_Ota_Ref/main/ota_manager.c:35-53 | returns 0 iff a host is found, then writes it NUL-terminated into the buffer; otherwise returns -1 and leaves the buffer alone |
| Ota.WindowIsClockArc | ESP32C6_Secure_Boot_Https_Ota_Ref/main/ota_manager.c:94-117 | the window comparisons select exactly the hours walked from start up to end around a 24-hour clock; equal bounds mean all day |
| Ota.NightWindowExample | ESP32C6_Secure_Boot_Https_Ota_Ref/main/ota_manager.c:60-117 | for 22:00-04:00 with the clock set, 23h and 3h are inside and 4h and 12h are not; an unset clock defers to the no-time policy |
| Ota.DecisionCycle | ESP32C6_Secure_Boot_Https_Ota_Ref/main/ota_manager.c:274-325 | every cycle starts by sampling the button twice, 30 ms apart |
| Ota.CloudQueriedOnlyWithoutPress | ESP32C6_Secure_Boot_Https_Ota_Ref/main/ota_manager.c:139-182 | the cloud is queried iff the button is not pressed and a trigger URL is configured |
| Ota.ClockGate | ESP32C6_Secure_Boot_Https_Ota_Ref/main/ota_manager.c:296-305 | the clock is read iff an update was requested |
| Ota.BatteryGate | ESP32C6_Secure_Boot_Https_Ota_Ref/main/ota_manager.c:296-311 | the battery is read iff an update was requested and the window is open |
| Ota.ProbeGate | ESP32C6_Secure_Boot_Https_Ota_Ref/main/ota_manager.c:190-230 | the network is probed iff moreover the battery is high enough and the firmware URL has a host that fits |
| Ota.GatesRunInOrder | ESP32C6_Secure_Boot_Https_Ota_Ref/main/ota_manager.c:296-319 | each gate runs iff every earlier gate passed |
| Ota.DownloadOnlyWhenAllGatesPass | ESP32C6_Secure_Boot_Https_Ota_Ref/main/ota_manager.c:238-267 | a download happens iff all gates pass and the root certificate is at least 32 bytes |
| Ota.RestartOnlyAfterGoodDownload | ESP32C6_Secure_Boot_Https_Ota_Ref/main/ota_manager.c:319-323 | the device restarts iff moreover the download succeeds; every other cycle ends in the poll delay |
| Ota.BounceIsNoPress | ESP32C6_Secure_Boot_Https_Ota_Ref/main/ota_manager.c:139-145 | one low sample and one high sample mean no press, so without a cloud trigger nothing else happens |
| SpiFlash.Addr24RoundTrip | ESP32_SPI_Flash_Demo/main/main.c:164-167 | the three address bytes carry exactly the address modulo 2^24, which is also the fast read's masked address |
| SpiFlash.Command | ESP32_SPI_Flash_Demo/main/main.c:427-432 | a command frame is the opcode followed by the 24-bit address, most significant byte first |
| SpiFlash.Fit | ESP32_SPI_Flash_Demo/main/main.c:169 | the n received bytes keep what the chip sent, zero beyond it |
| SpiFlash.FlashBus.constructor | ESP32_SPI_Flash_Demo/main/main.c:85-119 | a bus with nothing sent and the given replies to come |
| SpiFlash.FlashBus.Transmit | ESP32_SPI_Flash_Demo/main/main.c:176 | one transaction is logged and consumes the next reply |
| SpiFlash.ReadSlow | ESP32_SPI_Flash_Demo/main/main.c:150-181 | NULL or zero length is rejected with no traffic; otherwise one 0x03 frame of 4 + length bytes; on success the output is rx[4..4+length), on error it is untouched |
| SpiFlash.CopyInto | ESP32_SPI_Flash_Demo/main/main.c:177 | `memcpy` writes the source at the offset and nothing else |
| SpiFlash.ReadFast | ESP32_SPI_Flash_Demo/main/main.c:198-220 | one 0x0B half-duplex transaction at the masked address; the bytes land only on success |
| SpiFlash.ReadSpansCover | ESP32_SPI_Flash_Demo/main/main.c:248-257 | the bulk chunks are non-empty, at most chunk_max, full-size except the last, contiguous from the start address and add up to the length |
| SpiFlash.ReadSpansStep | ESP32_SPI_Flash_Demo/main/main.c:249-256 | the first chunk is min(chunk_max, remaining) at the current address, followed by the chunks of the rest; a failed read of it ends the run with that read's error, otherwise the run of the rest follows on the next answers |
| SpiFlash.AnswersOkStep | ESP32_SPI_Flash_Demo/main/main.c:251-252 | the first n answers succeed iff the first does and the n - 1 after it do |
| SpiFlash.BulkReadRunPrefix | ESP32_SPI_Flash_Demo/main/main.c:248-258 | the reads a bulk read issues are a prefix of the chunk reads, and all of them when it succeeds |
| SpiFlash.BulkReadRunFirstError | ESP32_SPI_Flash_Demo/main/main.c:248-258 | the bulk read succeeds iff every chunk's read succeeds; on failure every earlier read succeeded and the error returned is that of the last read issued |
| SpiFlash.BulkReadRunLeft | ESP32_SPI_Flash_Demo/main/main.c:251 | each chunk read consumes exactly one answer, and there is at most one read per chunk |
| SpiFlash.LogOfBulkRead | ESP32_SPI_Flash_Demo/main/main.c:248-258 | a log grown by a bulk read's run holds a prefix of the chunk reads after the old entries, all of them on success |
| SpiFlash.EffectiveChunkMax | ESP32_SPI_Flash_Demo/main/main.c:242 | the chunk limit used is never zero; a zero request means 16 KiB |
| SpiFlash.ReadNextChunk | ESP32_SPI_Flash_Demo/main/main.c:251-252 | one loop pass reads the next chunk; a failure ends the bulk run with its error, frames and answers, and a success leaves exactly the run and the bytes of the remaining chunks to come |
| SpiFlash.ReadBulk | ESP32_SPI_Flash_Demo/main/main.c:237-259 | NULL or zero length is rejected with no traffic; otherwise the error returned, the transactions issued and the answers consumed are those of `BulkReadRun` (the first failing read's error); the reads are always a prefix of the chunk reads, and on success all of them, with the buffer holding every chunk's reply in order |
| SpiFlash.WaitReadyIff | ESP32_SPI_Flash_Demo/main/main.c:312-327 | the wait succeeds iff a status read shows the chip ready within the timeout and every read before it succeeded and showed it busy; it polls at least once and at most once per millisecond plus one |
| SpiFlash.SkipFront | ESP32_SPI_Flash_Demo/main/main.c:317-326 | consuming one reply and then k more is consuming k + 1 |
| SpiFlash.ReadStatus1 | ESP32_SPI_Flash_Demo/main/main.c:284-299 | NULL is rejected with no traffic; otherwise one 0x05 transaction, and on success the status is the second byte received |
| SpiFlash.WaitReady | ESP32_SPI_Flash_Demo/main/main.c:312-327 | the error and the number of status polls are those of `WaitSpec`, and each poll is a status frame |
| SpiFlash.WriteEnable | ESP32_SPI_Flash_Demo/main/main.c:267-274 | the one-byte 0x06 transaction and its reply's error |
| SpiFlash.WriteCycle | ESP32_SPI_Flash_Demo/main/main.c:353-376 | a write cycle always starts with the write enable |
| SpiFlash.RunWriteCycle | ESP32_SPI_Flash_Demo/main/main.c:353-376 | write enable, then the command, then the wait; the first error ends it |
| SpiFlash.PageProgram | ESP32_SPI_Flash_Demo/main/main.c:345-377 | NULL, length 0, length > 256 or a page crossing are rejected with no traffic; otherwise a write cycle of 0x02, the address and the data, with a 300 ms wait |
| SpiFlash.PageArgsExamples | ESP32_SPI_Flash_Demo/main/main.c:347-351 | at offset 0xFF one byte fits and two do not; a full page fits only at a page start; 0 and 257 bytes never fit |
| SpiFlash.SectorErase | ESP32_SPI_Flash_Demo/main/main.c:423-440 | a write cycle of the 4-byte 0x20 command with a 4000 ms wait |
| SpiFlash.PageChunkLen | ESP32_SPI_Flash_Demo/main/main.c:401-403 | a chunk is non-empty, no longer than what remains, and ends within its page |
| SpiFlash.NextPageAligned | ESP32_SPI_Flash_Demo/main/main.c:401-408 | after a chunk that fills its page the next address starts a page, even across 32-bit wrap |
| SpiFlash.PageSplitJoined | ESP32_SPI_Flash_Demo/main/main.c:400-412 | the pieces put back together are the data |
| SpiFlash.PageSplitInPages | ESP32_SPI_Flash_Demo/main/main.c:400-412 | every piece is non-empty and stays in one page; the first starts at the address and later ones at page boundaries |
| SpiFlash.PageSplitContiguous | ESP32_SPI_Flash_Demo/main/main.c:400-412 | each piece starts where the previous one ended |
| SpiFlash.PageSplitSound | ESP32_SPI_Flash_Demo/main/main.c:400-412 | all properties of the page split together |
| SpiFlash.ProgramsAppend | ESP32_SPI_Flash_Demo/main/main.c:405 | the page programs of a joined log are those of each part |
| SpiFlash.NoProgramsInPolls | ESP32_SPI_Flash_Demo/main/main.c:317-326 | status polling issues no page program |
| SpiFlash.ProgramsOfCycle | ESP32_SPI_Flash_Demo/main/main.c:353-376 | a page-program write cycle issues that one program, unless the write enable already failed |
| SpiFlash.BufferWriteRunPrograms | ESP32_SPI_Flash_Demo/main/main.c:400-412 | the page programs a buffer write issues are a prefix of those of the page split, and all of them when it succeeds |
| SpiFlash.LogOfBufferWrite | ESP32_SPI_Flash_Demo/main/main.c:400-412 | a log grown by a buffer write's run holds a prefix of the planned page programs after the old entries, all of them on success |
| SpiFlash.BufferWriteRunStep | ESP32_SPI_Flash_Demo/main/main.c:405-406 | the buffer write starts with the first piece's write cycle: if it fails the run ends with its error, frames and answers, otherwise the run of the rest follows on the answers left |
| SpiFlash.ProgramNextPage | ESP32_SPI_Flash_Demo/main/main.c:405-406 | one loop pass programs the next piece; a failure ends the buffer write's run with its error, frames and answers, a success leaves exactly the run of the rest to come |
| SpiFlash.WriteBuffer | ESP32_SPI_Flash_Demo/main/main.c:392-413 | NULL or zero length is rejected with no traffic; otherwise the error returned, the transactions issued and the answers consumed are those of `BufferWriteRun`, whose error is that of the first failing step (a write enable, a program or the last wait); the page programs issued are always a prefix of the page split and, on success, all of it |
| UartDemo.Feed | UART_Demo/main/main.c:111-133 | the line stays under 256 bytes and, when it held no line break, gets none |
| UartDemo.FeedCompletesLine | UART_Demo/main/main.c:113-123 | a push that meets a newline first completes exactly the bytes before it, carriage returns removed; the bytes after it are not looked at |
| UartDemo.FeedKeepsPartialLine | UART_Demo/main/main.c:113-132 | with no newline and no overflow, the push reports no line and keeps everything for the next push |
| UartDemo.FeedInTwoPushes | UART_Demo/main/main.c:111-133 | two pushes equal one push of both chunks, unless the first completes a line |
| UartDemo.FeedOverflowResets | UART_Demo/main/main.c:125-130 | the byte that would make the line 256 bytes long resets it and is dropped |
| UartDemo.LineAcc.constructor | UART_Demo/main/main.c:353-354 | an empty accumulator with NUL in the first byte |
| UartDemo.LineAcc.Reset | UART_Demo/main/main.c:93-97 | length 0 and a NUL in the first byte |
| UartDemo.LineAcc.Push | UART_Demo/main/main.c:111-133 | the new content and result are those of `Feed`; a completed line is NUL-terminated in the buffer |
| UartDemo.TxQueue.constructor | UART_Demo/main/main.c:243 | an empty TX queue |
| UartDemo.TxQueue.SendStr | UART_Demo/main/main.c:144-160 | empty text succeeds without queuing; 256 bytes or more fails without queuing; otherwise the exact bytes are queued iff fewer than 10 messages wait |
| UartDemo.ResponseFits | UART_Demo/main/main.c:175-196 | every reply is a newline-terminated C string short enough for one TX message |
| UartDemo.UptimeText | UART_Demo/main/main.c:190 | in "UPTIME_MS " + digits + "\n" the digits sit between the prefix and the newline, and there is no NUL |
| UartDemo.UptimeReply | UART_Demo/main/main.c:187-192 | the UPTIME reply is "UPTIME_MS ", the decimal uptime modulo 2^32, and a newline, fitting one message |
| UartDemo.HandleLine | UART_Demo/main/main.c:175-196 | the reply to the line is queued if there is room |
| UartDemo.ParserStep | UART_Demo/main/main.c:356-369 | one read pushes the chunk and, on a completed line, handles it and resets the accumulator |
| UartDemo.SecondCommandInSameReadIsLost | UART_Demo/main/main.c:120-123 | "PING\nPING\n" in one read gives one reply; the reset drops the second command |
| UartDemo.CommandSplitFirstRead | UART_Demo/main/main.c:113-132 | a partial command is kept after the first read |
| UartDemo.CommandSplitSecondRead | UART_Demo/main/main.c:364-368 | the command is handled once its newline arrives in the second read |
| UartEvent.StatusFits | ESP32_Uart_Event_Ref/main/uart_event_ref.c:173-178 | the status text for any 32-bit counters fits its 192-byte buffer, so nothing is truncated |
| UartEvent.ReplyShape | ESP32_Uart_Event_Ref/main/uart_event_ref.c:154-183 | every reply starts with "echo: ", the line and CR LF, and ends with CR LF |
| UartEvent.Step | ESP32_Uart_Event_Ref/main/uart_event_ref.c:204-225 | the line stays under 256 bytes after any byte |
| UartEvent.Feed | ESP32_Uart_Event_Ref/main/uart_event_ref.c:198-226 | the line stays under 256 bytes after any buffer |
| UartEvent.FeedLinesAreClean | ESP32_Uart_Event_Ref/main/uart_event_ref.c:208-224 | every handled line is non-empty, under 256 bytes and free of CR and LF, and so is the content left |
| UartEvent.FeedConcat | ESP32_Uart_Event_Ref/main/uart_event_ref.c:204-225 | feeding two buffers in turn equals feeding their concatenation: nothing is lost or reordered at the boundary |
| UartEvent.FeedLine | ESP32_Uart_Event_Ref/main/uart_event_ref.c:208-215 | a line and its terminator are handled once, and feeding goes on after the terminator |
| UartEvent.BlankLinesEmitNothing | ESP32_Uart_Event_Ref/main/uart_event_ref.c:208-215 | terminators that end no line, such as the LF of a CR LF, emit nothing |
| UartEvent.TwoCrlfLines | ESP32_Uart_Event_Ref/main/uart_event_ref.c:204-225 | two CRLF-terminated commands in one buffer are both handled, in order |
| UartEvent.FeedOverflow | ESP32_Uart_Event_Ref/main/uart_event_ref.c:217-224 | the byte that would overflow emits one warning, resets the line and is dropped |
| UartEvent.RenderAppend | ESP32_Uart_Event_Ref/main/uart_event_ref.c:75-89 | the output of two runs of emits is their outputs in turn |
| UartEvent.FeedPrefixStep | ESP32_Uart_Event_Ref/main/uart_event_ref.c:204-225 | feeding one more byte extends the content and the output by that byte's step |
| UartEvent.FeedRest | ESP32_Uart_Event_Ref/main/uart_event_ref.c:204-225 | feeding from position i is stepping byte i and then feeding the rest |
| UartEvent.ToRead | ESP32_Uart_Event_Ref/main/uart_event_ref.c:265 | a data event reads min(size, 256) bytes |
| UartEvent.CountStep | ESP32_Uart_Event_Ref/main/uart_event_ref.c:262-301 | one event raises its own counter by one, modulo 2^32, and no other |
| UartEvent.CounterTally | ESP32_Uart_Event_Ref/main/uart_event_ref.c:262-301 | after a run of events a counter has grown, modulo 2^32, by the number of events of its kind |
| UartEvent.CountersTally | ESP32_Uart_Event_Ref/main/uart_event_ref.c:262-301 | after a run of events each of the four counters has grown, modulo 2^32, by the events of its kind and by nothing else |
| UartEvent.Console.constructor | ESP32_Uart_Event_Ref/main/uart_event_ref.c:243-247 | an empty line, zero counters, and the given pending input and events |
| UartEvent.Console.HandleLine | ESP32_Uart_Event_Ref/main/uart_event_ref.c:154-183 | the reply to the NUL-terminated line is written to the UART and nothing else changes |
| UartEvent.Console.FeedByte | ESP32_Uart_Event_Ref/main/uart_event_ref.c:205-224 | one loop pass updates the line as `Step` says and writes what it emits |
| UartEvent.Console.FeedBytes | ESP32_Uart_Event_Ref/main/uart_event_ref.c:198-226 | nothing for NULL or a length of zero or less; otherwise the bytes are fed as `Feed` says and its output is written |
| UartEvent.Console.FeedAll | ESP32_Uart_Event_Ref/main/uart_event_ref.c:204-225 | the feeding loop updates the line and writes the output as `Feed` says |
| UartEvent.Console.HandleEvent | ESP32_Uart_Event_Ref/main/uart_event_ref.c:262-301 | a data event feeds up to min(size, 256) pending bytes; an overflow or full buffer counts itself, flushes input and drops queued events; a frame or parity error counts itself and flushes input; other events change nothing |
| EspNow.SkipSpace | ESP-NOW_Demo/main/main.c:85-86 | skipping white space leaves text that does not start with white space |
| EspNow.ScanHex2 | ESP-NOW_Demo/main/main.c:85-86 | a `%2x` conversion consumes at least one character |
| EspNow.ScanFields | ESP-NOW_Demo/main/main.c:85-87 | k colon-separated conversions yield exactly k bytes |
| EspNow.ParseMac | ESP-NOW_Demo/main/main.c:85-87 | a parsed MAC has six bytes |
| EspNow.MacText | ESP-NOW_Demo/main/main.c:113-114 | the text of a MAC is 17 characters |
| EspNow.ScanHex2OfHex2 | ESP-NOW_Demo/main/main.c:85-86 | a `%02X` field scans back to its byte, and the scan stops right after it |
| EspNow.ScanFieldsOfText | ESP-NOW_Demo/main/main.c:85-86 | colon-separated `%02X` fields scan back to their bytes |
| EspNow.MacRoundTrip | ESP-NOW_Demo/main/main.c:78-115 | parsing what `mac_to_str` prints gives the MAC back |
| EspNow.ParseMacRejects | ESP-NOW_Demo/main/main.c:85-89 | empty text, a field without a digit, or a field followed by anything but ':' is refused |
| EspNow.ParseMacStr | ESP-NOW_Demo/main/main.c:78-95 | true iff both arguments are present and six fields scan; then the bytes are stored, and otherwise the output is untouched |
| EspNow.MacToStr | ESP-NOW_Demo/main/main.c:108-115 | nothing for NULL or a buffer under 18; otherwise the 17 characters and a NUL |
| EspNow.EncodePacket | ESP-NOW_Demo/main/main.c:49-54 | a packet is 8 bytes |
| EspNow.PacketRoundTrip | ESP-NOW_Demo/main/main.c:49-54 | a packet copied out of its own bytes is the packet |
| EspNow.PacketBytesRoundTrip | ESP-NOW_Demo/main/main.c:49-54 | any 8 bytes are the encoding of the packet they decode to |
| EspNow.Accepted | ESP-NOW_Demo/main/main.c:210-231 | a frame is kept iff source and data are present and the length is at least 8; the item keeps the source and length |
| EspNow.SentPacketArrives | ESP-NOW_Demo/main/main.c:210-235 | a frame holding a sent packet's bytes is queued with that packet |
| EspNow.ConfigPeer | ESP-NOW_Demo/main/main.c:251-278 | an existing peer gives ESP_OK and no change; otherwise the add's result, with the peer listed on success |
| EspNow.ConfigPeerIdempotent | ESP-NOW_Demo/main/main.c:264-271 | configuring a peer again succeeds and changes nothing |
| EspNow.Node.constructor | ESP-NOW_Demo/main/main.c:62-66 | no queue, sequence number and counter 0, nothing sent, no peers |
| EspNow.Node.CreateRxQueue | ESP-NOW_Demo/main/main.c:62 | the receive queue now exists and is empty |
| EspNow.Node.Receive | ESP-NOW_Demo/main/main.c:210-236 | the accepted item is queued when the queue exists and has room, and nothing else changes |
| EspNow.Node.SendNext | ESP-NOW_Demo/main/main.c:318-326 | sends a version-1, type-1 packet with the current sequence number and counter, then both advance by one |
| EspNow.Node.SendMany | ESP-NOW_Demo/main/main.c:317-337 | k passes send the packets of `SenderPackets` and advance both numbers k times |
| EspNow.Node.ConfigurePeer | ESP-NOW_Demo/main/main.c:251-278 | the result and the peer list are those of `ConfigPeer` |
| EspNow.SenderPackets | ESP-NOW_Demo/main/main.c:317-337 | k passes send k packets |
| EspNow.FirstPacket | ESP-NOW_Demo/main/main.c:319-323 | the first packet carries the current sequence number and counter |
| EspNow.ConsecutivePackets | ESP-NOW_Demo/main/main.c:319-323 | consecutive packets have consecutive numbers, wrapping at 2^16 and 2^32, so 0xFFFF is followed by 0 |
| Pwm.ValidDutyPercent | LEDC_PWM_Demo/main/main.c:68-74 | accepted iff 20 ≤ pct ≤ 90, so never outside 0..100 |
| Pwm.MaxDuty | LEDC_PWM_Demo/main/main.c:90 | the maximum duty fits in 32 bits |
| Pwm.ComputeDuty | LEDC_PWM_Demo/main/main.c:89-92 | the raw duty fits in 32 bits |
| Pwm.DutyInRange | LEDC_PWM_Demo/main/main.c:89-92 | for 0..100 nothing wraps: the duty is ⌊pct·(2^res−1)/100⌋ and at most the maximum |
| Pwm.DutyEnds | LEDC_PWM_Demo/main/main.c:89-92 | 0% gives 0 and 100% gives the maximum |
| Pwm.DutyAt13Bits | LEDC_PWM_Demo/main/main.c:89-92 | at 13 bits the maximum is 8191, 50% gives 4095 and the demo's 75% gives 6143 |
| Pwm.DutyMonotone | LEDC_PWM_Demo/main/main.c:89-92 | a larger percentage never gives a smaller duty |
| Pwm.AppMain | LEDC_PWM_Demo/main/main.c:174-192 | an invalid duty configures nothing; a timer failure stops before the channel; PWM starts iff all three steps succeed, with the channel at the computed duty |
| Pwm.DemoStarts | LEDC_PWM_Demo/main/main.c:43-49 | the demo configures a 13-bit 5 kHz timer and GPIO 35 at raw duty 6143 |
| WifiScanner.AuthModeString | ESP32_WiFi_Scanner_Application/main/wifi_scanner.c:62-75 | "Unknown" exactly for the modes not listed |
| WifiScanner.AuthModeNamesDistinct | ESP32_WiFi_Scanner_Application/main/wifi_scanner.c:62-75 | listed modes have distinct names |
| WifiScanner.SignalStrength | ESP32_WiFi_Scanner_Application/main/wifi_scanner.c:86-92 | the label is one of the five |
| WifiScanner.LabelRank | ESP32_WiFi_Scanner_Application/main/wifi_scanner.c:86-92 | the rank is the label's place in strongest-first order |
| WifiScanner.SignalBands | ESP32_WiFi_Scanner_Application/main/wifi_scanner.c:86-92 | each label is given exactly on its band: Excellent from −30, Very Good from −50, Good from −60, Fair from −70, Poor below |
| WifiScanner.SignalMonotone | ESP32_WiFi_Scanner_Application/main/wifi_scanner.c:86-92 | a stronger signal never gets a weaker label |
| WifiScanner.PerformScan | ESP32_WiFi_Scanner_Application/main/wifi_scanner.c:132-214 | success iff start and count succeed and either no AP was found or the allocation and fetch succeed; at most 20 records are requested and shown; a failed allocation gives ESP_ERR_NO_MEM; on success with APs found the records shown are the first min(ap_count, 20) the driver filled in, in its order, and any failure or an empty scan shows none |
| WifiScanner.ApLabels | ESP32_WiFi_Scanner_Application/main/wifi_scanner.c:62-92 | an AP's signal label is one of the five, and its security is "Unknown" exactly for unlisted modes |
| WifiScanner.EmptyScan | ESP32_WiFi_Scanner_Application/main/wifi_scanner.c:170-173 | a scan with no APs succeeds and fetches nothing |
| WifiScanner.CrowdedScan | ESP32_WiFi_Scanner_Application/main/wifi_scanner.c:176-189 | with more than 20 APs exactly 20 are requested and shown |
| WifiScanner.NvsStatus | ESP32_WiFi_Scanner_Application/main/wifi_scanner.c:236-242 | a full or newer-version NVS is erased and initialised again |
| WifiScanner.InitSteps | ESP32_WiFi_Scanner_Application/main/wifi_scanner.c:236-289 | succeeds iff every step does, an existing event loop counting as success; a failure reports a failing step's code |
| WifiScanner.Scanner.constructor | ESP32_WiFi_Scanner_Application/main/wifi_scanner.c:228 | not yet initialised |
| WifiScanner.Scanner.Init | ESP32_WiFi_Scanner_Application/main/wifi_scanner.c:225-295 | once initialised, later calls return ESP_OK; otherwise the steps run and the flag is set iff they all succeed |
| WifiScanner.InitTwice | ESP32_WiFi_Scanner_Application/main/wifi_scanner.c:228-291 | after a successful init every later one succeeds, whatever the driver would answer |
| Scheduling.PhaseEvent | Preemptive_vs_Non_Preemptive_Scheduling_Demo/main/main.c:236-238 | every phase posts one of the three events |
| Scheduling.PhaseAfter | Preemptive_vs_Non_Preemptive_Scheduling_Demo/main/main.c:233-234 | the phase stays in 0..2 |
| Scheduling.Posted | Preemptive_vs_Non_Preemptive_Scheduling_Demo/main/main.c:229-239 | n callbacks post n events |
| Scheduling.FirstCallbacks | Preemptive_vs_Non_Preemptive_Scheduling_Demo/main/main.c:233-238 | from start-up the callbacks post NET, UI, SENSOR |
| Scheduling.PostedSplit | Preemptive_vs_Non_Preemptive_Scheduling_Demo/main/main.c:229-239 | callbacks split into a first run and the rest from where it ended |
| Scheduling.ThreeCallbacks | Preemptive_vs_Non_Preemptive_Scheduling_Demo/main/main.c:233-238 | the three callbacks from each phase, written out |
| Scheduling.ThreeFromAnyPhase | Preemptive_vs_Non_Preemptive_Scheduling_Demo/main/main.c:233-238 | three callbacks from any phase post one event of each kind |
| Scheduling.PostedWindow | Preemptive_vs_Non_Preemptive_Scheduling_Demo/main/main.c:229-239 | the callbacks after the first i are those of a run started where the first i ended |
| Scheduling.ThreeConsecutive | Preemptive_vs_Non_Preemptive_Scheduling_Demo/main/main.c:233-238 | any three consecutive callbacks post one event of each kind |
| Scheduling.Increment | Preemptive_vs_Non_Preemptive_Scheduling_Demo/main/main.c:250-290 | SENSOR adds 1, NET 2, UI 3, and an unknown id nothing |
| Scheduling.TotalIncrement | Preemptive_vs_Non_Preemptive_Scheduling_Demo/main/main.c:250-290 | a run of events adds at most 3 per event |
| Scheduling.TotalIncrementAppend | Preemptive_vs_Non_Preemptive_Scheduling_Demo/main/main.c:306-317 | the total of joined runs is the sum of their totals |
| Scheduling.RotationWorthSix | Preemptive_vs_Non_Preemptive_Scheduling_Demo/main/main.c:233-290 | one full timer rotation adds 6 to the counter |
| Scheduling.CoopLoop.constructor | Preemptive_vs_Non_Preemptive_Scheduling_Demo/main/main.c:195-197 | phase 0, an empty queue of the configured capacity, counter 0 |
| Scheduling.CoopLoop.Post | Preemptive_vs_Non_Preemptive_Scheduling_Demo/main/main.c:208-218 | the event and its 32-bit tick go to the back when there is room; a full queue drops it |
| Scheduling.CoopLoop.TimerCallback | Preemptive_vs_Non_Preemptive_Scheduling_Demo/main/main.c:229-239 | the phase advances modulo 3 and its event is posted |
| Scheduling.CoopLoop.HandleNext | Preemptive_vs_Non_Preemptive_Scheduling_Demo/main/main.c:301-319 | the oldest event is removed and its increment added to the counter modulo 2^32 |
| Scheduling.CoopLoop.Drain | Preemptive_vs_Non_Preemptive_Scheduling_Demo/main/main.c:301-319 | events are handled in posting order, each once, and the counter grows by their total |
| Scheduling.TotalAppend | Preemptive_vs_Non_Preemptive_Scheduling_Demo/main/main.c:68-83 | the sum of joined runs is the sum of their sums |
| Scheduling.TotalRemove | Preemptive_vs_Non_Preemptive_Scheduling_Demo/main/main.c:68-83 | removing one increment leaves the rest of the sum |
| Scheduling.TotalPermutation | Preemptive_vs_Non_Preemptive_Scheduling_Demo/main/main.c:68-83 | the order of the increments does not change their sum |
| Scheduling.SharedCounter.constructor | Preemptive_vs_Non_Preemptive_Scheduling_Demo/main/main.c:57 | the counter starts at 0 |
| Scheduling.SharedCounter.Add | Preemptive_vs_Non_Preemptive_Scheduling_Demo/main/main.c:68-83 | adds delta modulo 2^32 and returns the value just written |
| Scheduling.AddAll | Preemptive_vs_Non_Preemptive_Scheduling_Demo/main/main.c:68-83 | serialised calls each return the running total, and the final value is the start plus the sum |
| Scheduling.OrderDoesNotMatter | Preemptive_vs_Non_Preemptive_Scheduling_Demo/main/main.c:68-83 | whatever order the mutex admits the calls in, the counter ends at the same value |
| EventGroups.MaskLayout | Task_Synchronization_Using_Event_Groups_Demo/main/main.c:72-83 | the init mask is bits 0..3, the data mask bits 8..10, and they share no bit |
| EventGroups.InitBits | Task_Synchronization_Using_Event_Groups_Demo/main/main.c:180-203 | I2C and NET are always set; GPIO and ADC iff their init succeeded; nothing outside the init mask |
| EventGroups.InitBarrier | Task_Synchronization_Using_Event_Groups_Demo/main/main.c:180-203 | the whole init mask is set iff both peripheral inits succeed |
| EventGroups.EventGroup.constructor | Task_Synchronization_Using_Event_Groups_Demo/main/main.c:89 | no bits set |
| EventGroups.EventGroup.SetBits | Task_Synchronization_Using_Event_Groups_Demo/main/main.c:186 | the mask's bits are added |
| EventGroups.InitTask | Task_Synchronization_Using_Event_Groups_Demo/main/main.c:180-203 | the group gains exactly `InitBits` |
| EventGroups.Sample | Task_Synchronization_Using_Event_Groups_Demo/main/main.c:301-312 | the count stays under 3 and follows the new level; ready iff the level repeats a third time; a change restarts the count |
| EventGroups.Readies | Task_Synchronization_Using_Event_Groups_Demo/main/main.c:293-315 | one ready signal per sample |
| EventGroups.After | Task_Synchronization_Using_Event_Groups_Demo/main/main.c:293-315 | the count stays under 3 after any run of samples |
| EventGroups.ConstantLevel | Task_Synchronization_Using_Event_Groups_Demo/main/main.c:301-312 | with a constant level, a sample is ready iff the count started at c reaches a multiple of three there |
| EventGroups.EveryThirdSample | Task_Synchronization_Using_Event_Groups_Demo/main/main.c:289-312 | after the initial read a constant level signals ready on every third sample |
| EventGroups.ChangeRestarts | Task_Synchronization_Using_Event_Groups_Demo/main/main.c:303-306 | a change of level withholds ready for the next two samples |
| EventGroups.GpioMonitor.constructor | Task_Synchronization_Using_Event_Groups_Demo/main/main.c:289-291 | the initial level with a count of 0 |
| EventGroups.GpioMonitor.Step | Task_Synchronization_Using_Event_Groups_Demo/main/main.c:296-312 | the state and signal are those of `Sample`, and GPIO_READY is set iff ready |
| EventGroups.GpioMonitor.Run | Task_Synchronization_Using_Event_Groups_Demo/main/main.c:293-315 | the loop gives the signals and final state of `Readies` and `After`, and sets GPIO_READY iff some sample was ready |
| EventGroups.ReadyBitsStep | Task_Synchronization_Using_Event_Groups_Demo/main/main.c:309-310 | one more sample adds GPIO_READY iff it was ready |
| EventGroups.RunStep | Task_Synchronization_Using_Event_Groups_Demo/main/main.c:293-315 | a run of samples is the first sample followed by the rest |
| EventGroups.AggregatorPass | Task_Synchronization_Using_Event_Groups_Demo/main/main.c:336-359 | publishes iff all three data bits are present, then clears them; otherwise the bits stay |
| EventGroups.NoPayloadWithoutAll | Task_Synchronization_Using_Event_Groups_Demo/main/main.c:338-350 | any missing data bit means no payload, and the init bits are never cleared |
| PowerGating.OnLevel | ESP32C6_Power_Gating_Demo/main/power_gating.c:57-61 | ON is 1 iff active high |
| PowerGating.OffLevel | ESP32C6_Power_Gating_Demo/main/power_gating.c:46-50 | OFF is 1 iff active low, always the other level |
| PowerGating.Drive | ESP32C6_Power_Gating_Demo/main/power_gating.c:46-61 | the enable pin reads the chosen level and every other pin keeps its own |
| PowerGating.DriveIdempotent | ESP32C6_Power_Gating_Demo/main/power_gating.c:101-108 | driving the same way twice is driving once |
| PowerGating.LastDriveWins | ESP32C6_Power_Gating_Demo/main/power_gating.c:101-108 | only the last call decides the level |
| PowerGating.PowerGate.constructor | ESP32C6_Power_Gating_Demo/main/power_gating.c:63-99 | the zero configuration, no outputs, no levels driven |
| PowerGating.PowerGate.Init | ESP32C6_Power_Gating_Demo/main/power_gating.c:63-99 | NULL changes nothing; otherwise the config is stored, the enable pin becomes an output and is driven OFF |
| PowerGating.PowerGate.SetEnabled | ESP32C6_Power_Gating_Demo/main/power_gating.c:101-108 | drives ON or OFF and touches nothing else |
| PowerGating.PowerGate.GetConfig | ESP32C6_Power_Gating_Demo/main/power_gating.c:110-113 | returns the stored configuration |
| PowerGating.InitThenQuery | ESP32C6_Power_Gating_Demo/main/power_gating.c:63-113 | right after init the rail is OFF for either polarity, and the stored config is the one given |

## Left out

- Logging, `printf` and `ESP_LOG*` output are left out. UART output is modelled, because it is part of the consoles' behaviour.
- `ESP_ERROR_CHECK` aborts are not modelled. A call wrapped in it is assumed to succeed.
- FreeRTOS tasks, delays and blocking waits are not modelled as concurrency. Each task body is one sequential step with what it received as input.
- Concurrency is not modelled. This covers the preemptive demo tasks, `demo_cpu_work`, the mutex and the stream buffers; `counter_add` is modelled as a sequence of serialised calls.
- The event-groups demo leaves out `adc_task`, `temp_task` (floating point), `diagnostics_task` and the aggregator's `%.2f` payload text. The event group is a set of bit positions, and the bits present when a wait returns are an input.
- `Efuse.EfuseStore`: the eFuse API internals and the CSV field table are not part of this model. The store is an OR-only map of four fields with batch begin, stage, commit and cancel. Each call's error is an input; the provisioned check's reads and the programming's reads of the same field have separate errors.
- The eFuse demo's read-and-print routine is left out except for its payload layout, which is shared with the other two builders.
- `Ota.DecisionCycle`:
  - HTTP/TLS, DNS, the TCP probe, `esp_https_ota`, `esp_restart`, `time` and `localtime_r` are oracle inputs;
  - the build-time settings of the OTA demo are a parameter, because its configuration header is not part of this model;
  - the battery reading is an input, since the reference build stubs it with a constant;
  - one clock reading serves both the "is the time set" test and the window test, although the firmware calls `time` once for each (`ota_manager.c` lines 66 and 102). The model therefore does not cover a cycle in which the clock changes between the two calls, for example across the start or end hour of the window.
- `Ota.ParseHttpsHost` reads the URL as a string without its NUL. A NULL URL or buffer is not modelled, because the only caller passes neither.
- SPI bus initialisation and `spi_flash_read_id` are left out as driver set-up. The bus is a log of transactions plus a script of replies.
- `SpiFlash.ReadSlow` does not model the `malloc` failure (ESP_ERR_NO_MEM), because heap allocation is outside the model.
- `SpiFlash.PageProgram` does not model the `heap_caps_malloc` failure (ESP_ERR_NO_MEM), for the same reason.
- `SpiFlash.ReadFast` does not carry the dummy-bit count as a parameter; it is always the 8 bits of fast read. DMA placement of the buffers is not modelled.
- `SpiFlash.WaitReady` counts the timeout in polls rather than ticks. Each busy poll stands for the 1 ms delay, so the tick count is abstracted into a poll budget.
- In UART_Demo, `uart_ref_init`, `uart_rx_event_task`, `uart_tx_task` and `app_main` are left out: driver set-up, the ISR-to-stream-buffer copy and `uart_write_bytes`. `UartDemo.ParserStep` takes the chunk that `xStreamBufferReceive` returned as an input and does not bound it to the 128 bytes of `tmp`. An empty chunk, the timeout case, changes nothing.
- `UartDemo.TxQueue.SendStr` treats the 20 ms send timeout on a full queue as an immediate failure, because the TX task's draining is not modelled.
- `UartDemo.HandleLine` takes the uptime in milliseconds as an input. The tick period is not modelled.
- In the UART event demo, `uart_init_event_mode`, `uart_tx_heartbeat_task` and `app_main` are left out as driver set-up.
- `UartEvent.Console.HandleEvent` models `uart_read_bytes` as returning what is pending, up to the bytes asked for. It never returns -1.
- In the ESP-NOW demo, NVS/Wi-Fi/ESP-NOW initialisation, `espnow_send_cb` and `receiver_task`'s printing are left out. The send-done wait and the 1 s delay are not modelled.
- `EspNow.Node.Receive` models a NULL `info` as a missing source address. `xQueueCreate` failure is represented by the queue still being absent.
- `EspNow.ParseMac` models `%2x` with leading white space and hexadecimal digits of either case. A sign or a `0x` prefix, which `sscanf` would also accept, is not modelled, so such text is refused.
- `EspNow.ConfigPeer` takes the outcome of `esp_now_add_peer` as an input.
- `Pwm.AppMain` takes the duty percentage as a parameter instead of the build-time constant. `DemoStarts` fixes it to the demo's 75.
- `WifiScanner.PerformScan` models the record fetch as returning at most as many records as were asked for. `print_ap_info`'s BSSID and channel output is not modelled; its labels are.
- In the Wi-Fi scanner, `wifi_scan_deinit`, the scan task and `app_main` are left out as driver plumbing.
- `WifiScanner.InitSteps` assumes `nvs_flash_erase` succeeds, because it is wrapped in `ESP_ERROR_CHECK`.
- `PowerGating.PowerGate.Init` requires an enable pin below 64. Otherwise `1ULL << enable_gpio` is undefined and `gpio_config` aborts.
- The power-gating `app_main.c`, `bus_safe.c` and `sleep_ctrl.c` are not part of this model.
- The Python scripts of UART_Demo are a host-side harness and are not modelled. The replies they expect agree with `UartDemo.Response`.
