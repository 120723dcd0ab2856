/** Host telemetry values shared by the drive modules. */
module HostModel {
  import opened Basics

  datatype DriveMetrics = DriveMetrics(name: string, usedBytes: u64, totalBytes: u64, availableBytes: Option<u64>)
}
